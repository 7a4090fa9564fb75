/** `streamEvents` and `firstStreamError` of sharded_client.go: one worker a shard, a goroutine that
    closes the error channel, and the caller, as interleaved atomic steps. */
module StreamMerge {
  import opened Text

  /** Why a shard's stream ended: an error of its own, or the end of the context it ran under. */
  datatype Cause = Own(code: int) | ContextDone

  /** `late` records that some worker, or the caller, had already cancelled the shared context when
      the stream returned. */
  datatype Failure = Failure(cause: Cause, late: bool)

  /** Where a worker is: inside `stream`; inside the handler, holding the mutex; back from `stream`;
      past `errs <- err`; past `cancel()`; past `wg.Done()`. */
  datatype Worker =
    | Streaming
    | Handling
    | Ended(err: Option<Failure>)
    | Queued(err: Option<Failure>)
    | Cancelled(err: Option<Failure>)
    | Done(err: Option<Failure>)

  datatype Result = Nil | ContextError | StreamError(cause: Cause)

  /** `ended` records whether the caller's own context had ended at the moment it returned. */
  datatype Caller = Waiting | Got(failure: Failure) | Returned(result: Result, ended: bool)

  /** The error channel is `sent[taken..]`: the workers whose error is buffered, in order. */
  datatype State = State(
    workers: seq<Worker>,
    mutex: Option<nat>,
    sent: seq<nat>,
    taken: nat,
    closed: bool,
    cancelled: bool,
    parentDone: bool,
    caller: Caller,
    panicked: bool)

  ghost function Initial(shards: nat): State {
    State(seq(shards, _ => Streaming), None, [], 0, false, false, false, Waiting, false)
  }

  datatype Step =
    | Lock(i: nat)
    | Unlock(i: nat)
    | StreamReturns(i: nat, err: Option<Cause>)
    | SendError(i: nat)
    | Cancel(i: nat)
    | WgDone(i: nat)
    | CloseChannel
    | Receive
    | ReceiveClosed
    | Return
    | ParentEnds

  ghost predicate AllDone(s: State) { forall i | 0 <= i < |s.workers| :: s.workers[i].Done? }

  /** A step that can be taken. A send on a full channel cannot; a send on a closed one can, and
      panics. `stream` reports the end of its context only when that context has ended. */
  ghost predicate Enabled(s: State, step: Step) {
    !s.panicked &&
    match step
    case Lock(i) => i < |s.workers| && s.workers[i].Streaming? && s.mutex.None?
    case Unlock(i) => i < |s.workers| && s.workers[i].Handling?
    case StreamReturns(i, err) =>
      i < |s.workers| && s.workers[i].Streaming? && (err == Some(ContextDone) ==> s.cancelled || s.parentDone)
    case SendError(i) =>
      && i < |s.workers| && s.workers[i].Ended? && s.workers[i].err.Some?
      && (s.closed || |s.sent| - s.taken < |s.workers|)
    case Cancel(i) => i < |s.workers| && s.workers[i].Queued?
    case WgDone(i) =>
      i < |s.workers| && (s.workers[i].Cancelled? || (s.workers[i].Ended? && s.workers[i].err.None?))
    case CloseChannel => !s.closed && AllDone(s)
    case Receive =>
      && s.caller.Waiting? && s.taken < |s.sent|
      && s.sent[s.taken] < |s.workers| && HasError(s.workers[s.sent[s.taken]])
    case ReceiveClosed => s.caller.Waiting? && s.taken == |s.sent| && s.closed
    case Return => s.caller.Got?
    case ParentEnds => !s.parentDone
  }

  ghost predicate HasError(w: Worker) { !w.Streaming? && !w.Handling? && w.err.Some? }

  ghost function Put(s: State, i: nat, w: Worker): State
    requires i < |s.workers|
  {
    s.(workers := s.workers[i := w])
  }

  /** The caller's `defer cancel()` runs when it returns. */
  ghost function Apply(s: State, step: Step): State
    requires Enabled(s, step)
  {
    match step
    case Lock(i) => Put(s, i, Handling).(mutex := Some(i))
    case Unlock(i) => Put(s, i, Streaming).(mutex := None)
    case StreamReturns(i, err) =>
      Put(s, i, Ended(if err.None? then None else Some(Failure(err.value, s.cancelled))))
    case SendError(i) =>
      if s.closed then s.(panicked := true) else Put(s, i, Queued(s.workers[i].err)).(sent := s.sent + [i])
    case Cancel(i) => Put(s, i, Cancelled(s.workers[i].err)).(cancelled := true)
    case WgDone(i) => Put(s, i, Done(s.workers[i].err))
    case CloseChannel => s.(closed := true)
    case Receive => s.(taken := s.taken + 1, caller := Got(s.workers[s.sent[s.taken]].err.value))
    case ReceiveClosed => s.(caller := Returned(Nil, s.parentDone), cancelled := true)
    case Return =>
      var result := if s.parentDone then ContextError else StreamError(s.caller.failure.cause);
      s.(caller := Returned(result, s.parentDone), cancelled := true)
    case ParentEnds => s.(parentDone := true)
  }

  // ------------------------------------------------------------------- runs

  ghost predicate Runs(s: State, steps: seq<Step>)
    decreases |steps|
  {
    steps == [] || (Enabled(s, steps[0]) && Runs(Apply(s, steps[0]), steps[1..]))
  }

  ghost function Final(s: State, steps: seq<Step>): State
    requires Runs(s, steps)
    decreases |steps|
  {
    if steps == [] then s else Final(Apply(s, steps[0]), steps[1..])
  }

  // -------------------------------------------------------------- invariant

  ghost predicate HasSent(w: Worker) { w.Queued? || w.Cancelled? || (w.Done? && w.err.Some?) }

  /** Each worker queues its error once, and only its own. */
  ghost predicate ChannelInv(s: State) {
    && s.taken <= |s.sent|
    && (forall j, k | 0 <= j < k < |s.sent| :: s.sent[j] != s.sent[k])
    && (forall j | 0 <= j < |s.sent| :: s.sent[j] < |s.workers| && HasSent(s.workers[s.sent[j]]))
    && (forall i | 0 <= i < |s.workers| && HasSent(s.workers[i]) :: s.workers[i].err.Some? && i in s.sent)
  }

  ghost predicate MutexInv(s: State) {
    && (forall i | 0 <= i < |s.workers| :: s.workers[i].Handling? <==> s.mutex == Some(i))
    && (s.mutex.Some? ==> s.mutex.value < |s.workers|)
  }

  /** Nothing is cancelled before the first error is queued, so the first queued error is not
      late; and an error that is not late blames the context only if the caller's own had ended. */
  ghost predicate BlameInv(s: State) {
    && (s.cancelled ==> s.sent != [] || s.closed)
    && (s.sent == [] ==> forall i | 0 <= i < |s.workers| && HasError(s.workers[i]) :: !s.workers[i].err.value.late)
    && (s.sent != [] && s.sent[0] < |s.workers| && HasError(s.workers[s.sent[0]]) ==>
          !s.workers[s.sent[0]].err.value.late)
    && (forall i | 0 <= i < |s.workers| && HasError(s.workers[i]) ::
          s.workers[i].err.value.cause == ContextDone && !s.workers[i].err.value.late ==> s.parentDone)
  }

  ghost predicate FirstError(s: State, f: Failure) {
    s.sent != [] && s.sent[0] < |s.workers| && HasError(s.workers[s.sent[0]]) && s.workers[s.sent[0]].err.value == f
  }

  ghost predicate CallerInv(s: State) {
    match s.caller
    case Waiting => s.taken == 0
    case Got(f) => s.taken == 1 && FirstError(s, f)
    case Returned(Nil, ended) => s.closed && s.sent == [] && s.taken == 0 && (ended ==> s.parentDone)
    case Returned(ContextError, ended) => ended && s.parentDone && s.taken == 1
    case Returned(StreamError(cause), ended) =>
      !ended && s.taken == 1 && cause.Own? && FirstError(s, Failure(cause, false))
  }

  /** Past its own `cancel()`. */
  ghost predicate HasCancelled(w: Worker) { w.Cancelled? || (w.Done? && w.err.Some?) }

  /** The shared context is cancelled by a worker with an error, or by the return of the call, and by
      nothing else. */
  ghost predicate CancelInv(s: State) {
    s.cancelled <==> s.caller.Returned? || exists i | 0 <= i < |s.workers| :: HasCancelled(s.workers[i])
  }

  ghost predicate Inv(s: State) {
    && !s.panicked && ChannelInv(s) && MutexInv(s) && BlameInv(s) && CallerInv(s) && CancelInv(s)
    && (s.closed ==> AllDone(s))
  }

  lemma InitialInv(shards: nat)
    ensures Inv(Initial(shards))
  {
  }

  lemma PutKeepsChannel(s: State, t: State, i: nat)
    requires ChannelInv(s) && i < |s.workers| == |t.workers| && t.workers == s.workers[i := t.workers[i]]
    requires t.sent == s.sent && t.taken == s.taken
    requires HasSent(t.workers[i]) <==> HasSent(s.workers[i])
    requires HasSent(t.workers[i]) ==> t.workers[i].err == s.workers[i].err
    ensures ChannelInv(t)
  {
  }

  lemma SendKeepsChannel(s: State, i: nat)
    requires Inv(s) && Enabled(s, SendError(i))
    ensures ChannelInv(Apply(s, SendError(i))) && !Apply(s, SendError(i)).panicked
  {
    hide MutexInv, BlameInv, CallerInv, CancelInv;
    var t := Apply(s, SendError(i));
    assert !s.closed && i !in s.sent;
    assert t.sent[|s.sent|] == i;
    assert forall j | 0 <= j < |s.sent| :: t.sent[j] == s.sent[j] != i;
    assert forall k | 0 <= k < |s.workers| && k in s.sent :: k in t.sent;
  }

  lemma StepKeepsChannel(s: State, step: Step)
    requires Inv(s) && Enabled(s, step)
    ensures ChannelInv(Apply(s, step)) && !Apply(s, step).panicked
  {
    hide MutexInv, BlameInv, CallerInv, CancelInv;
    var t := Apply(s, step);
    match step
    case Lock(i) => PutKeepsChannel(s, t, i);
    case Unlock(i) => PutKeepsChannel(s, t, i);
    case StreamReturns(i, _) => PutKeepsChannel(s, t, i);
    case SendError(i) => SendKeepsChannel(s, i);
    case Cancel(i) => PutKeepsChannel(s, t, i);
    case WgDone(i) => PutKeepsChannel(s, t, i);
    case _ =>
  }

  lemma StepKeepsMutex(s: State, step: Step)
    requires Inv(s) && Enabled(s, step)
    ensures MutexInv(Apply(s, step))
  {
    hide ChannelInv, BlameInv, CallerInv, CancelInv;
  }

  lemma StepKeepsBlame(s: State, step: Step)
    requires Inv(s) && Enabled(s, step)
    ensures BlameInv(Apply(s, step))
  {
    hide MutexInv, CancelInv;
  }

  lemma StepKeepsCaller(s: State, step: Step)
    requires Inv(s) && Enabled(s, step)
    ensures CallerInv(Apply(s, step))
    ensures Apply(s, step).closed ==> AllDone(Apply(s, step))
  {
    hide MutexInv, CallerInv, BlameInv, CancelInv;
    var t := Apply(s, step);
    match step
    case Receive => ReceiveKeepsCaller(s);
    case ReceiveClosed => ClosedKeepsCaller(s);
    case Return => ReturnKeepsCaller(s);
    case _ => OthersKeepCaller(s, step);
  }

  /** A worker with an error keeps it, and the first in the channel stays the first. */
  lemma OthersKeepCaller(s: State, step: Step)
    requires Inv(s) && Enabled(s, step) && !step.Receive? && !step.ReceiveClosed? && !step.Return?
    ensures CallerInv(Apply(s, step))
  {
    hide MutexInv, BlameInv, CancelInv;
    var t := Apply(s, step);
    assert s.sent != [] ==> t.sent != [] && t.sent[0] == s.sent[0];
    assert forall f | FirstError(s, f) :: FirstError(t, f);
    assert s.closed ==> t.sent == s.sent;
  }

  lemma ReceiveKeepsCaller(s: State)
    requires Inv(s) && Enabled(s, Receive)
    ensures CallerInv(Apply(s, Receive))
  {
    hide MutexInv, BlameInv, CancelInv;
  }

  lemma ClosedKeepsCaller(s: State)
    requires Inv(s) && Enabled(s, ReceiveClosed)
    ensures CallerInv(Apply(s, ReceiveClosed))
  {
    hide MutexInv, BlameInv, CancelInv;
  }

  lemma ReturnKeepsCaller(s: State)
    requires Inv(s) && Enabled(s, Return)
    ensures CallerInv(Apply(s, Return))
  {
    hide MutexInv, CancelInv;
    var t := Apply(s, Return);
    if !s.parentDone { assert FirstError(t, s.caller.failure); }
  }

  /** A worker past its cancel stays past it, and only `Cancel` takes one there. */
  lemma StepKeepsCancel(s: State, step: Step)
    requires Inv(s) && Enabled(s, step)
    ensures CancelInv(Apply(s, step))
  {
    hide MutexInv, BlameInv, CallerInv;
    var t := Apply(s, step);
    assert forall i | 0 <= i < |s.workers| && HasCancelled(s.workers[i]) :: HasCancelled(t.workers[i]);
    if step.Cancel? {
      assert HasCancelled(t.workers[step.i]);
    } else {
      assert forall i | 0 <= i < |s.workers| && HasCancelled(t.workers[i]) :: HasCancelled(s.workers[i]);
    }
  }

  lemma StepKeepsInv(s: State, step: Step)
    requires Inv(s) && Enabled(s, step)
    ensures Inv(Apply(s, step))
  {
    hide ChannelInv, MutexInv, BlameInv, CallerInv, CancelInv, AllDone, Apply;
    StepKeepsChannel(s, step);
    StepKeepsMutex(s, step);
    StepKeepsBlame(s, step);
    StepKeepsCaller(s, step);
    StepKeepsCancel(s, step);
  }

  lemma {:induction false} RunKeepsInv(s: State, steps: seq<Step>)
    requires Inv(s) && Runs(s, steps)
    ensures Inv(Final(s, steps))
    decreases |steps|
  {
    hide Inv, Apply, Enabled;
    if steps != [] {
      StepKeepsInv(s, steps[0]);
      RunKeepsInv(Apply(s, steps[0]), steps[1..]);
    }
  }

  // ------------------------------------------------------------- the results

  /** The state after any run of any number of shards. */
  ghost predicate Reachable(s: State) {
    exists shards, steps :: Runs(Initial(shards), steps) && s == Final(Initial(shards), steps)
  }

  lemma ReachableInv(s: State)
    requires Reachable(s)
    ensures Inv(s)
  {
    hide Inv, Initial;
    var shards, steps :| Runs(Initial(shards), steps) && s == Final(Initial(shards), steps);
    InitialInv(shards);
    RunKeepsInv(Initial(shards), steps);
  }

  ghost function Below(n: nat): (s: set<nat>)
    ensures |s| == n && forall i: nat :: i in s <==> i < n
  {
    if n == 0 then {} else Below(n - 1) + {n - 1}
  }

  lemma DistinctBelow(xs: seq<nat>, n: nat, missing: nat)
    requires forall j, k | 0 <= j < k < |xs| :: xs[j] != xs[k]
    requires forall j | 0 <= j < |xs| :: xs[j] < n
    requires missing < n && missing !in xs
    ensures |xs| < n
  {
    var members := set j | 0 <= j < |xs| :: xs[j];
    DistinctCount(xs);
    assert members <= Below(n) - {missing};
    CardinalityLe(members, Below(n) - {missing});
  }

  lemma {:induction false} DistinctCount(xs: seq<nat>)
    requires forall j, k | 0 <= j < k < |xs| :: xs[j] != xs[k]
    ensures |set j | 0 <= j < |xs| :: xs[j]| == |xs|
  {
    if xs != [] {
      var rest, last := xs[..|xs| - 1], xs[|xs| - 1];
      DistinctCount(rest);
      assert (set j | 0 <= j < |xs| :: xs[j]) == (set j | 0 <= j < |rest| :: rest[j]) + {last};
      assert last !in (set j | 0 <= j < |rest| :: rest[j]);
    }
  }

  lemma {:induction false} CardinalityLe(a: set<nat>, b: set<nat>)
    requires a <= b
    ensures |a| <= |b|
  {
    if a != {} {
      var x :| x in a;
      CardinalityLe(a - {x}, b - {x});
    }
  }

  /** A worker with an error to report finds the channel open and with room: it neither panics nor
      blocks. */
  lemma SendNeverBlocksNorPanics(s: State, i: nat)
    requires Reachable(s)
    requires i < |s.workers| && s.workers[i].Ended? && s.workers[i].err.Some?
    ensures !s.closed && |s.sent| - s.taken < |s.workers| && Enabled(s, SendError(i))
  {
    hide Runs, Final, BlameInv, CallerInv;
    ReachableInv(s);
    DistinctBelow(s.sent, |s.workers|, i);
  }

  /** The handler never runs in two workers at once. */
  lemma HandlerIsExclusive(s: State, i: nat, j: nat)
    requires Reachable(s)
    requires i < |s.workers| && j < |s.workers| && s.workers[i].Handling? && s.workers[j].Handling?
    ensures i == j
  {
    ReachableInv(s);
  }

  /** The moment the call returns with an error it has received: the error of the caller's context
      exactly when that has ended by then, and otherwise that of the first worker to queue one. */
  lemma ReturnTells(s: State)
    requires Reachable(s) && s.caller.Got?
    ensures Enabled(s, Return)
    ensures var caller := Apply(s, Return).caller;
            && caller.Returned? && caller.ended == s.parentDone
            && (caller.result == ContextError <==> s.parentDone)
            && (!s.parentDone ==>
                  && s.sent != [] && s.sent[0] < |s.workers| && HasError(s.workers[s.sent[0]])
                  && caller.result == StreamError(s.workers[s.sent[0]].err.value.cause))
  {
    hide Runs, Final, MutexInv, CancelInv;
    ReachableInv(s);
  }

  /** A closed and empty channel means success, even if the caller's context has ended. */
  lemma ClosedTells(s: State)
    requires Reachable(s) && s.caller.Waiting? && s.closed && s.sent == []
    ensures Enabled(s, ReceiveClosed) && Apply(s, ReceiveClosed).caller == Returned(Nil, s.parentDone)
  {
    hide Runs, Final, MutexInv, CancelInv;
    ReachableInv(s);
  }

  /** What the caller has been told, for good. Nil: no error was ever queued, and every stream ended
      without one. After an error: that of its context exactly if this had ended when the call
      returned, and otherwise the error of the first worker to queue one, its own and produced before
      anything was cancelled, never a cancellation caused by another worker. */
  lemma ResultIsHonest(s: State)
    requires Reachable(s) && s.caller.Returned?
    ensures s.caller.result == Nil <==> s.sent == [] && s.taken == 0
    ensures s.caller.result == Nil ==> forall i | 0 <= i < |s.workers| :: s.workers[i] == Done(None)
    ensures s.caller.result != Nil ==> (s.caller.result == ContextError <==> s.caller.ended)
    ensures s.caller.ended ==> s.parentDone
    ensures s.caller.result.StreamError? ==>
              && s.caller.result.cause.Own? && s.sent != [] && s.sent[0] < |s.workers|
              && HasError(s.workers[s.sent[0]])
              && s.workers[s.sent[0]].err.value == Failure(s.caller.result.cause, false)
  {
    hide Runs, Final, MutexInv, CancelInv;
    ReachableInv(s);
  }

  /** A stream of the run returned this error. */
  ghost predicate Reported(steps: seq<Step>, i: nat, cause: Cause) {
    exists k | 0 <= k < |steps| :: steps[k] == StreamReturns(i, Some(cause))
  }

  ghost predicate Fails(w: Worker, cause: Cause) { HasError(w) && w.err.value.cause == cause }

  /** One step: an error is had exactly by those that had it and by the one whose stream returns it. */
  lemma StepReports(s: State, step: Step, i: nat, cause: Cause)
    requires Inv(s) && Enabled(s, step) && i < |s.workers|
    ensures |Apply(s, step).workers| == |s.workers|
    ensures Fails(Apply(s, step).workers[i], cause) <==>
            Fails(s.workers[i], cause) || step == StreamReturns(i, Some(cause))
  {
    hide ChannelInv, MutexInv, BlameInv, CallerInv, CancelInv;
  }

  /** Over any run a worker has exactly the errors its stream returned. */
  lemma {:induction false} RunReports(s: State, steps: seq<Step>, i: nat, cause: Cause)
    requires Inv(s) && Runs(s, steps) && i < |s.workers|
    ensures |Final(s, steps).workers| == |s.workers|
    ensures Fails(Final(s, steps).workers[i], cause) <==> Fails(s.workers[i], cause) || Reported(steps, i, cause)
    decreases |steps|
  {
    hide Inv, Apply, Enabled, Fails;
    if steps != [] {
      StepReports(s, steps[0], i, cause);
      StepKeepsInv(s, steps[0]);
      var rest := steps[1..];
      RunReports(Apply(s, steps[0]), rest, i, cause);
      assert steps == [steps[0]] + rest;
      assert forall k | 0 <= k < |rest| :: rest[k] == steps[k + 1];
    }
  }

  lemma {:induction false} ReturnedStays(s: State, steps: seq<Step>)
    requires Runs(s, steps) && s.caller.Returned?
    ensures Final(s, steps).caller == s.caller
    decreases |steps|
  {
    if steps != [] { ReturnedStays(Apply(s, steps[0]), steps[1..]); }
  }

  /** The call returns an error at its `Return`, the `k`-th step of the run. */
  ghost predicate ReturnsAt(s: State, steps: seq<Step>, k: nat, result: Result) {
    && k < |steps| && steps[k] == Return
    && (result == ContextError <==> s.parentDone || ParentEnds in steps[..k])
  }

  lemma {:induction false} ReturnsOnce(s: State, steps: seq<Step>) returns (k: nat)
    requires Runs(s, steps) && !s.caller.Returned?
    requires Final(s, steps).caller.Returned? && Final(s, steps).caller.result != Nil
    ensures ReturnsAt(s, steps, k, Final(s, steps).caller.result)
    decreases |steps|
  {
    var r, rest := Apply(s, steps[0]), steps[1..];
    if r.caller.Returned? {
      ReturnedStays(r, rest);
      k := 0;
      assert steps[..0] == [];
    } else {
      k := ReturnsOnce(r, rest);
      assert r.parentDone <==> s.parentDone || steps[0] == ParentEnds;
      assert steps[..k + 1] == [steps[0]] + rest[..k];
      k := k + 1;
    }
  }

  /** The result of a whole call, from what its streams and its context did: nil only if no stream
      returned an error, a stream error only if a stream returned it, and of the two errors that of
      the context exactly if this ended before the call returned. */
  lemma CallTells(shards: nat, steps: seq<Step>)
    requires Runs(Initial(shards), steps) && Final(Initial(shards), steps).caller.Returned?
    ensures var result := Final(Initial(shards), steps).caller.result;
            && (result == Nil ==> forall i: nat, cause | i < shards :: !Reported(steps, i, cause))
            && (result.StreamError? ==> exists i: nat | i < shards :: Reported(steps, i, result.cause))
            && (result != Nil ==> exists k :: ReturnsAt(Initial(shards), steps, k, result))
  {
    hide Inv, Runs, Final, Reported, ReturnsAt;
    var start := Initial(shards);
    InitialInv(shards);
    var s := Final(start, steps);
    ResultIsHonest(s);
    SameCount(start, steps);
    if s.caller.result == Nil {
      forall i: nat, cause | i < shards ensures !Reported(steps, i, cause) {
        RunReports(start, steps, i, cause);
        assert !Fails(s.workers[i], cause);
      }
    } else {
      var k := ReturnsOnce(start, steps);
    }
    if s.caller.result.StreamError? {
      RunReports(start, steps, s.sent[0], s.caller.result.cause);
      assert Fails(s.workers[s.sent[0]], s.caller.result.cause);
    }
  }

  lemma {:induction false} SameCount(s: State, steps: seq<Step>)
    requires Runs(s, steps)
    ensures |Final(s, steps).workers| == |s.workers|
    decreases |steps|
  {
    if steps != [] { SameCount(Apply(s, steps[0]), steps[1..]); }
  }

  /** When the other streams are told to stop: as soon as a worker with an error has queued it and
      cancelled, or the call has returned, and never before. */
  lemma CancelledExactly(s: State)
    requires Reachable(s)
    ensures s.cancelled <==> s.caller.Returned? || exists i | 0 <= i < |s.workers| :: HasCancelled(s.workers[i])
    ensures s.cancelled && !s.caller.Returned? ==> s.sent != []
  {
    hide Runs, Final, MutexInv, CallerInv;
    ReachableInv(s);
  }

  // ------------------------------------------------------------------ progress

  /** Every `stream` call has returned. */
  ghost predicate StreamsOver(s: State) {
    forall i | 0 <= i < |s.workers| :: !s.workers[i].Streaming? && !s.workers[i].Handling?
  }

  ghost predicate Internal(step: Step) {
    !step.Lock? && !step.Unlock? && !step.StreamReturns? && !step.ParentEnds?
  }

  ghost function Rank(w: Worker): nat {
    match w
    case Streaming => 5
    case Handling => 5
    case Ended(err) => if err.Some? then 3 else 1
    case Queued(_) => 2
    case Cancelled(_) => 1
    case Done(_) => 0
  }

  ghost function RankSum(workers: seq<Worker>): nat {
    if workers == [] then 0 else Rank(workers[0]) + RankSum(workers[1..])
  }

  /** The steps still to come. */
  ghost function Measure(s: State): nat {
    RankSum(s.workers) + (if s.closed then 0 else 1) +
    match s.caller case Waiting => 2 case Got(_) => 1 case Returned(_, _) => 0
  }

  lemma {:induction false} RankSumUpdate(workers: seq<Worker>, i: nat, w: Worker)
    requires i < |workers|
    ensures RankSum(workers[i := w]) == RankSum(workers) - Rank(workers[i]) + Rank(w)
  {
    if i == 0 {
      assert workers[i := w][1..] == workers[1..];
    } else {
      RankSumUpdate(workers[1..], i - 1, w);
      assert workers[i := w][1..] == workers[1..][i - 1 := w];
    }
  }

  /** As soon as one stream has failed, or all of them are over, the call can come back: until it
      does some step of its own can be taken, whatever the other streams do. */
  lemma SomeStepIsEnabled(s: State) returns (step: Step)
    requires Reachable(s) && !s.caller.Returned?
    requires StreamsOver(s) || exists i | 0 <= i < |s.workers| :: HasError(s.workers[i])
    ensures Internal(step) && Enabled(s, step)
  {
    hide Runs, Final, MutexInv, BlameInv, CancelInv;
    ReachableInv(s);
    if s.caller.Got? {
      step := Return;
    } else if s.sent != [] {
      step := Receive;
    } else if i :| 0 <= i < |s.workers| && HasError(s.workers[i]) {
      SendNeverBlocksNorPanics(s, i);
      step := SendError(i);
    } else if s.closed {
      step := ReceiveClosed;
    } else if AllDone(s) {
      step := CloseChannel;
    } else {
      var i :| 0 <= i < |s.workers| && !s.workers[i].Done?;
      step := WgDone(i);
    }
  }

  /** A step of its own brings the call nearer to its end, and no other step takes it away. */
  lemma StepsRunOut(s: State, step: Step)
    requires Inv(s) && Enabled(s, step)
    ensures Measure(Apply(s, step)) <= Measure(s) - if Internal(step) then 1 else 0
  {
    hide ChannelInv, MutexInv, BlameInv, CallerInv, CancelInv, RankSum;
    var r := Apply(s, step);
    if r.workers != s.workers { RankSumUpdate(s.workers, step.i, r.workers[step.i]); }
  }

  ghost function Internals(steps: seq<Step>): nat {
    if steps == [] then 0 else (if Internal(steps[0]) then 1 else 0) + Internals(steps[1..])
  }

  /** In any run at all, however long the streams go on, the steps of the call itself are counted:
      there are never more of them than the measure allows. */
  lemma {:induction false} CallReturnsInTime(s: State, steps: seq<Step>)
    requires Inv(s) && Runs(s, steps)
    ensures Internals(steps) + Measure(Final(s, steps)) <= Measure(s)
    decreases |steps|
  {
    hide Inv, Apply, Enabled, Measure, Internal;
    if steps != [] {
      StepsRunOut(s, steps[0]);
      StepKeepsInv(s, steps[0]);
      CallReturnsInTime(Apply(s, steps[0]), steps[1..]);
    }
  }
}

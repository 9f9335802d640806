/**
 * The running server: the poller goroutine, the goroutine that stops it, and one GetMetrics call,
 * interleaved at their synchronisation points. A tick becomes visible when its batch is published;
 * everything before that touches only the poller's own schedule.
 */
module ServerSystem {
  import opened Base
  import opened KernelRegistry
  import opened LiveRead
  import opened Poller
  import opened PollerRuns

  datatype LoopPc = NotStarted | Selecting | Ticking(now: int) | Leaving | Exited

  datatype StopPc = Idle | Waiting | Returned

  /** One answered name: the store version it met, the instant of the answer, and the answer. */
  datatype Served = Served(name: string, version: nat, at: int, answer: Metric)

  datatype State = State(
    run: Run,
    loop: LoopPc,
    stopper: StopPc,
    stopClosed: bool,
    doneCloses: nat,
    panicked: bool,
    clock: int,
    names: seq<string>,
    served: seq<Served>)

  datatype Step =
    | Start
    | TickerFires(now: int)
    | Publish(at: Instants, published: int)
    | SeesStop
    | ClosesDone
    | CallStop
    | CallStopAgain
    | StopReturns
    | Serve(now: int)

  function Init(metrics: seq<KernelMetric>, start: Pass, names: seq<string>): State {
    State(Run(metrics, start, []), NotStarted, Idle, false, 0, false, start.published, names, [])
  }

  /** With both channels ready the select may take either case, so TickerFires ignores stopClosed. */
  ghost predicate Enabled(s: State, step: Step) {
    && !s.panicked
    && match step
       case Start => s.loop == NotStarted
       case TickerFires(now) => s.loop == Selecting && s.clock <= now
       case Publish(at, published) =>
         s.loop.Ticking? && s.clock <= published && ValidPass(Pass(s.loop.now, at, published))
       case SeesStop => s.loop == Selecting && s.stopClosed
       case ClosesDone => s.loop == Leaving
       case CallStop => s.stopper == Idle
       case CallStopAgain => s.stopClosed
       case StopReturns => s.stopper == Waiting && s.doneCloses > 0
       case Serve(now) => |s.served| < |s.names| && s.clock <= now
  }

  ghost function Apply(s: State, step: Step, live: Live): State
    requires Enabled(s, step)
  {
    match step
    case Start => s.(loop := Selecting)
    case TickerFires(now) => s.(loop := Ticking(now), clock := now)
    case Publish(at, published) =>
      s.(loop := Selecting, clock := published,
         run := s.run.(ticks := s.run.ticks + [Pass(s.loop.now, at, published)]))
    case SeesStop => s.(loop := Leaving)
    case ClosesDone => s.(loop := Exited, doneCloses := s.doneCloses + 1)
    case CallStop => s.(stopper := Waiting, stopClosed := true)
    case CallStopAgain => s.(panicked := true)
    case StopReturns => s.(stopper := Returned)
    case Serve(now) =>
      var name := s.names[|s.served|];
      s.(clock := now,
         served := s.served + [Served(name, |s.run.ticks|, now, StoredOrLive(live, Final(s.run), name, now))])
  }

  /** The state after `steps`, or None when some step was not enabled. */
  ghost function Exec(s: State, steps: seq<Step>, live: Live): Option<State> {
    if steps == [] then Some(s)
    else
      match Exec(s, steps[..|steps| - 1], live)
      case None => None
      case Some(t) =>
        if Enabled(t, steps[|steps| - 1]) then Some(Apply(t, steps[|steps| - 1], live)) else None
  }

  lemma {:induction false} ExecConcat(s: State, a: seq<Step>, b: seq<Step>, live: Live)
    ensures Exec(s, a + b, live) ==
            match Exec(s, a, live) case None => None case Some(t) => Exec(t, b, live)
  {
    if b == [] {
      assert a + b == a;
    } else {
      assert (a + b)[..|a + b| - 1] == a + b[..|b| - 1];
      ExecConcat(s, a, b[..|b| - 1], live);
    }
  }

  // ---------------------------------------------------------------- what every interleaving keeps

  ghost predicate ChannelInv(s: State) {
    && (s.stopClosed <==> s.stopper != Idle)
    && (s.loop == Leaving || s.loop == Exited ==> s.stopClosed)
    && s.doneCloses == (if s.loop == Exited then 1 else 0)
    && (s.stopper == Returned ==> s.loop == Exited)
  }

  ghost predicate ClockInv(s: State) {
    && ValidRun(s.run)
    && LastPass(s.run).published <= s.clock
    && (s.loop.Ticking? ==> LastPass(s.run).published <= s.loop.now <= s.clock)
  }

  /** Answer j is what readMetric answers at its own store version. */
  ghost predicate AnswerOk(s: State, live: Live, j: nat)
    requires j < |s.served| <= |s.names|
  {
    var e := s.served[j];
    && e.name == s.names[j]
    && e.version <= |s.run.ticks|
    && e.answer == StoredOrLive(live, After(s.run, e.version), e.name, e.at)
    && LastPass(Prefix(s.run, e.version)).published <= e.at <= s.clock
  }

  ghost predicate AnswersInv(s: State, live: Live) {
    |s.served| <= |s.names| && forall j: nat :: j < |s.served| ==> AnswerOk(s, live, j)
  }

  /** Versions and instants never decrease in request order. */
  ghost predicate OrderInv(s: State) {
    forall j, l :: 0 <= j < l < |s.served| ==>
                     s.served[j].version <= s.served[l].version && s.served[j].at <= s.served[l].at
  }

  ghost predicate Inv(s: State, live: Live) {
    ChannelInv(s) && ClockInv(s) && AnswersInv(s, live) && OrderInv(s)
  }

  lemma InitKeeps(metrics: seq<KernelMetric>, start: Pass, names: seq<string>, live: Live)
    requires ValidPass(start)
    ensures Inv(Init(metrics, start, names), live)
  {
  }

  lemma PublishKeepsAnswers(s: State, step: Step, live: Live)
    requires Inv(s, live) && Enabled(s, step) && step.Publish?
    ensures AnswersInv(Apply(s, step, live), live)
  {
    var t, n := Apply(s, step, live), |s.run.ticks|;
    assert Prefix(t.run, n) == s.run;
    forall j: nat | j < |t.served| ensures AnswerOk(t, live, j) {
      assert AnswerOk(s, live, j);
      AfterOfPrefix(t.run, n, s.served[j].version);
      assert Prefix(t.run, s.served[j].version) == Prefix(s.run, s.served[j].version);
    }
  }

  lemma PublishKeepsClock(s: State, step: Step, live: Live)
    requires Inv(s, live) && Enabled(s, step) && step.Publish?
    ensures ClockInv(Apply(s, step, live))
  {
    var t := Apply(s, step, live);
    assert forall k :: 0 <= k < |s.run.ticks| ==> t.run.ticks[k] == s.run.ticks[k];
  }

  lemma ServeKeepsAnswers(s: State, step: Step, live: Live)
    requires Inv(s, live) && Enabled(s, step) && step.Serve?
    ensures AnswersInv(Apply(s, step, live), live)
  {
    var t := Apply(s, step, live);
    forall j: nat | j < |t.served| ensures AnswerOk(t, live, j) {
      if j < |s.served| {
        assert AnswerOk(s, live, j);
      } else {
        assert Prefix(s.run, |s.run.ticks|) == s.run;
      }
    }
  }

  lemma ServeKeepsOrder(s: State, step: Step, live: Live)
    requires Inv(s, live) && Enabled(s, step) && step.Serve?
    ensures OrderInv(Apply(s, step, live))
  {
    var t, n := Apply(s, step, live), |s.served|;
    forall j | 0 <= j < n ensures t.served[j].version <= t.served[n].version && t.served[j].at <= t.served[n].at {
      assert AnswerOk(s, live, j);
    }
  }

  /** Steps that neither publish nor answer leave every answer as it was. */
  lemma QuietStepKeepsAnswers(s: State, step: Step, live: Live)
    requires Inv(s, live) && Enabled(s, step) && !step.Publish? && !step.Serve?
    ensures AnswersInv(Apply(s, step, live), live)
  {
    var t := Apply(s, step, live);
    forall j: nat | j < |t.served| ensures AnswerOk(t, live, j) {
      assert AnswerOk(s, live, j);
    }
  }

  lemma StepKeeps(s: State, step: Step, live: Live)
    requires Inv(s, live) && Enabled(s, step)
    ensures Inv(Apply(s, step, live), live)
  {
    match step {
      case Publish(_, _) =>
        PublishKeepsAnswers(s, step, live);
        PublishKeepsClock(s, step, live);
      case Serve(_) =>
        ServeKeepsAnswers(s, step, live);
        ServeKeepsOrder(s, step, live);
      case _ => QuietStepKeepsAnswers(s, step, live);
    }
  }

  lemma {:induction false} ExecKeeps(s: State, steps: seq<Step>, live: Live)
    requires Inv(s, live) && Exec(s, steps, live).Some?
    ensures Inv(Exec(s, steps, live).value, live)
  {
    if steps != [] {
      ExecKeeps(s, steps[..|steps| - 1], live);
      StepKeeps(Exec(s, steps[..|steps| - 1], live).value, steps[|steps| - 1], live);
    }
  }

  lemma FinalOfNextTick(run: Run, tick: Pass)
    ensures Final(run.(ticks := run.ticks + [tick])) == Ticked(Final(run), tick.now, tick.at)
  {
    var longer, n := run.(ticks := run.ticks + [tick]), |run.ticks|;
    assert Prefix(longer, n) == run;
    AfterOfPrefix(longer, n, n);
  }

  /**
   * A tick from the ticker to the store: it is stamped with the instant it fired, its readings are those of the pass
   * published, and neither the answers given so far nor the channels change.
   */
  lemma TickIsRecorded(s: State, fired: int, at: Instants, published: int, live: Live)
    requires Inv(s, live) && Enabled(s, TickerFires(fired))
    requires fired <= published && ValidPass(Pass(fired, at, published))
    ensures var t := Exec(s, [TickerFires(fired), Publish(at, published)], live);
            && t.Some?
            && t.value == s.(run := s.run.(ticks := s.run.ticks + [Pass(fired, at, published)]), clock := published)
            && Final(t.value.run) == Ticked(Final(s.run), fired, at)
  {
    var two := [TickerFires(fired), Publish(at, published)];
    ExecFirstIsExec(s, two, live);
    var mid := Apply(s, two[0], live);
    assert two[1..] == [two[1]] && two[1..][1..] == [];
    assert Enabled(mid, two[1]);
    assert ExecFirst(mid, two[1..], live) == Some(Apply(mid, two[1], live));
    FinalOfNextTick(s.run, Pass(fired, at, published));
  }

  // ---------------------------------------------------------------- shutdown

  /** Stop closes the channel and waits; stopping again panics, and nothing happens after a panic. */
  lemma StopTwiceIsFatal(s: State, step: Step, live: Live)
    requires !s.panicked && s.stopper == Idle
    ensures Enabled(s, CallStop)
    ensures var once := Apply(s, CallStop, live);
            && once == s.(stopper := Waiting, stopClosed := true)
            && Enabled(once, CallStopAgain)
            && !Enabled(Apply(once, CallStopAgain, live), step)
  {
  }

  lemma {:induction false} ReturnedFreezesStore(t: State, later: seq<Step>, live: Live)
    requires Inv(t, live) && t.stopper == Returned && Exec(t, later, live).Some?
    ensures Exec(t, later, live).value.run == t.run
    ensures Exec(t, later, live).value.stopper == Returned
  {
    if later != [] {
      var init := later[..|later| - 1];
      ReturnedFreezesStore(t, init, live);
      ExecKeeps(t, init, live);
    }
  }

  /**
   * Shutdown safety, for every interleaving and every choice the select makes: doneCh is closed at most
   * once, stop has returned only if the loop has exited, and nothing is published after it returned.
   */
  lemma ShutdownSafety(metrics: seq<KernelMetric>, start: Pass, names: seq<string>, live: Live,
                       before: seq<Step>, later: seq<Step>)
    requires ValidPass(start)
    requires var s := Init(metrics, start, names); Exec(s, before + later, live).Some?
    ensures var s := Init(metrics, start, names);
            && Exec(s, before, live).Some?
            && var t, u := Exec(s, before, live).value, Exec(s, before + later, live).value;
            && u.doneCloses <= 1
            && (u.doneCloses == 1 <==> u.loop == Exited)
            && (u.stopper == Returned ==> u.loop == Exited)
            && (t.stopper == Returned ==> u.run == t.run)
  {
    var s := Init(metrics, start, names);
    InitKeeps(metrics, start, names, live);
    ExecConcat(s, before, later, live);
    ExecKeeps(s, before, live);
    ExecKeeps(s, before + later, live);
    if Exec(s, before, live).value.stopper == Returned {
      ReturnedFreezesStore(Exec(s, before, live).value, later, live);
    }
  }

  /** After stop has returned, a stored name answers the same reading at every later instant, however late. */
  lemma StoppedServerRepeatsItself(t: State, later: seq<Step>, live: Live, name: string, u: int, v: int)
    requires Inv(t, live) && t.stopper == Returned && Exec(t, later, live).Some?
    requires StoredName(t.run.metrics, name)
    ensures var end := Final(Exec(t, later, live).value.run);
            && ServedInstant(end, name, v) == ServedInstant(Final(t.run), name, u) <= LastPass(t.run).published
            && StoredOrLive(live, end, name, v) == StoredOrLive(live, Final(t.run), name, u)
  {
    ReturnedFreezesStore(t, later, live);
    StoreShape(t.run, |t.run.ticks|, name);
    ReadingsArePublished(t.run, |t.run.ticks|, name);
    assert Prefix(t.run, |t.run.ticks|) == t.run;
  }

  /** Stopping a poller that was never started waits for ever. */
  lemma {:induction false} StopNeedsStart(s: State, steps: seq<Step>, live: Live)
    requires s.loop == NotStarted && s.doneCloses == 0 && s.stopper != Returned
    requires Start !in steps && Exec(s, steps, live).Some?
    ensures var t := Exec(s, steps, live).value;
            t.loop == NotStarted && t.doneCloses == 0 && t.stopper != Returned
  {
    if steps != [] {
      var init := steps[..|steps| - 1];
      assert forall step :: step in init ==> step in steps;
      assert steps[|steps| - 1] in steps;
      StopNeedsStart(s, init, live);
    }
  }

  /** The steps that let a waiting stop return: finish the tick in progress, see the stop, exit. */
  ghost function Drain(s: State): seq<Step> {
    match s.loop
    case Ticking(now) => [Publish((_: nat) => now, Max(now, s.clock)), SeesStop, ClosesDone, StopReturns]
    case Selecting => [SeesStop, ClosesDone, StopReturns]
    case Leaving => [ClosesDone, StopReturns]
    case Exited => [StopReturns]
    case NotStarted => [Start, SeesStop, ClosesDone, StopReturns]
  }

  /** The same execution, unfolded from its first step. */
  ghost function ExecFirst(s: State, steps: seq<Step>, live: Live): Option<State>
    decreases |steps|
  {
    if steps == [] then Some(s)
    else if Enabled(s, steps[0]) then ExecFirst(Apply(s, steps[0], live), steps[1..], live)
    else None
  }

  lemma {:induction false} ExecFirstIsExec(s: State, steps: seq<Step>, live: Live)
    ensures ExecFirst(s, steps, live) == Exec(s, steps, live)
    decreases |steps|
  {
    if steps != [] {
      assert [steps[0]] + steps[1..] == steps;
      ExecConcat(s, [steps[0]], steps[1..], live);
      assert [steps[0]][..0] == [];
      assert Exec(s, [steps[0]], live) == if Enabled(s, steps[0]) then Some(Apply(s, steps[0], live)) else None;
      if Enabled(s, steps[0]) { ExecFirstIsExec(Apply(s, steps[0], live), steps[1..], live); }
    }
  }

  /** No interleaving deadlocks a stop: from every reachable waiting state it can still return. */
  lemma StopCanReturn(s: State, live: Live)
    requires Inv(s, live) && !s.panicked && s.stopper == Waiting
    ensures Exec(s, Drain(s), live).Some? && Exec(s, Drain(s), live).value.stopper == Returned
  {
    var steps := Drain(s);
    ExecFirstIsExec(s, steps, live);
    DrainWorks(s, live);
  }

  lemma {:induction false} DrainWorks(s: State, live: Live)
    requires Inv(s, live) && !s.panicked && s.stopper == Waiting
    ensures ExecFirst(s, Drain(s), live).Some? && ExecFirst(s, Drain(s), live).value.stopper == Returned
    decreases match s.loop case Exited => 0 case Leaving => 1 case Selecting => 2 case _ => 3
  {
    var steps := Drain(s);
    assert Enabled(s, steps[0]);
    var t := Apply(s, steps[0], live);
    if s.loop == Exited {
      assert steps[1..] == [];
    } else {
      StepKeeps(s, steps[0], live);
      assert steps[1..] == Drain(t);
      DrainWorks(t, live);
    }
  }

  /** The loop may still publish any number of ticks after stop was called. */
  ghost function TicksAt(now: int, n: nat): seq<Step> {
    if n == 0 then [] else TicksAt(now, n - 1) + [TickerFires(now), Publish((_: nat) => now, now)]
  }

  lemma {:induction false} TicksAfterStopCall(s: State, n: nat, live: Live)
    requires s.loop == Selecting && s.stopClosed && !s.panicked
    ensures var t := Exec(s, TicksAt(s.clock, n), live);
            && t.Some? && t.value.loop == Selecting && t.value.stopClosed && !t.value.panicked
            && t.value.clock == s.clock && |t.value.run.ticks| == |s.run.ticks| + n
  {
    if n > 0 {
      TicksAfterStopCall(s, n - 1, live);
      var t := Exec(s, TicksAt(s.clock, n - 1), live).value;
      var two := [TickerFires(s.clock), Publish((_: nat) => s.clock, s.clock)];
      ExecConcat(s, TicksAt(s.clock, n - 1), two, live);
      ExecFirstIsExec(t, two, live);
      assert Enabled(t, two[0]);
      var mid := Apply(t, two[0], live);
      assert two[1..] == [two[1]] && two[1..][1..] == [];
      assert Enabled(mid, two[1]);
      assert ExecFirst(mid, two[1..], live) == Some(Apply(mid, two[1], live));
    }
  }

  // ---------------------------------------------------------------- one GetMetrics call

  /** The kernel read instant behind an answer. */
  ghost function AnswerInstant(s: State, j: nat): int
    requires j < |s.served| && s.served[j].version <= |s.run.ticks|
  {
    ServedInstant(After(s.run, s.served[j].version), s.served[j].name, s.served[j].at)
  }

  /**
   * However ticks interleave with the answers of one GetMetrics call: versions never decrease in request
   * order, every answer is a live read of its name at its own version, and a name asked for again is never
   * answered with an older reading.
   */
  lemma AnswersNeverGoBack(s: State, live: Live, j: nat, l: nat)
    requires Inv(s, live) && j <= l < |s.served|
    ensures s.served[j].version <= s.served[l].version <= |s.run.ticks|
    ensures s.served[j].answer == live(s.names[j], AnswerInstant(s, j))
    ensures AnswerInstant(s, j) <= s.served[j].at
    ensures s.names[j] == s.names[l] ==> AnswerInstant(s, j) <= AnswerInstant(s, l)
  {
    var a, b := s.served[j], s.served[l];
    assert AnswerOk(s, live, j) && AnswerOk(s, live, l);
    StoreShape(s.run, a.version, a.name);
    StoreShape(s.run, b.version, b.name);
    if a.name in After(s.run, a.version).readAt {
      ReadingsArePublished(s.run, a.version, a.name);
      if a.name == b.name { ReadingsOnlyAdvance(s.run, a.version, b.version, a.name); }
    }
  }

  /** Staleness through the whole system: what is answered now is less than ttl + gap old. */
  lemma AnswersAreFresh(s: State, live: Live, i: nat, now: int, gap: int)
    requires Inv(s, live) && Enabled(s, Serve(now)) && NoOverflowInRun(s.run)
    requires s.run.ticks != [] && now <= LastPass(s.run).now + gap
    requires i < |After(s.run, 0).schedule| && After(s.run, 0).schedule[i].name == s.names[|s.served|]
    ensures var t := Apply(s, Serve(now), live);
            var r := AnswerInstant(t, |s.served|);
            && t.served[|s.served|].answer == live(s.names[|s.served|], r)
            && r <= now < r + Max(After(s.run, 0).schedule[i].ttlNanos, 1) + gap
  {
    BoundedStaleness(s.run, live, i, now, gap);
  }
}

/**
 * The life of the server over whole runs: when it starts to serve and whether the startup sweep has run by
 * then, when shutdown work may exist, and that every reachable state can run all its work to the end.
 */
module SyncLifecycle {
  import opened Common
  import opened SyncProtocol

  // ---- Startup ----

  /** The server has its startup behind it. */
  predicate Started(phase: Phase) {
    phase.Serving? || phase.Draining? || phase.Stopped?
  }

  /** How many steps of the run end the startup: the end of the sweep, or the budget running out. */
  function StartupEnds(steps: seq<Step>): nat {
    if steps == [] then 0
    else (if EndsStartup(steps[0]) then 1 else 0) + StartupEnds(steps[1..])
  }

  predicate EndsStartup(step: Step) {
    step == Server(ReconcileEnd) || step == Server(StartupTimeout)
  }

  lemma ServerPhaseMoves(s: State, step: ServerStep)
    requires ServerEnabled(s, step)
    ensures Started(ServerApply(s, step).phase) <==> Started(s.phase) || step.ReconcileEnd? || step.StartupTimeout?
    ensures step.ReconcileEnd? || step.StartupTimeout? ==> !Started(s.phase)
  {
    match step
    case StartupSync(_) =>
    case StartupSkip =>
    case StartupFinished =>
    case StartupTimeout =>
    case ReconcileSweep(_, _) =>
    case ReconcileEnd =>
    case BeginDrain =>
    case Stop =>
    case Spawn(_, _) =>
  }

  lemma TaskKeepsPhase(s: State, t: TaskId, step: TaskStep)
    requires TaskEnabled(s, t, step)
    ensures TaskApply(s, t, step).phase == s.phase
  {
  }

  lemma MutationKeepsPhase(s: State, m: MutationId, step: MutationStep)
    requires MutationEnabled(s, m, step)
    ensures MutationApply(s, m, step).phase == s.phase && MutationApply(s, m, step).tasks == s.tasks
    ensures MutationApply(s, m, step).orphaned == s.orphaned && MutationApply(s, m, step).lock == s.lock
  {
    match step
    case Begin(_, _) =>
    case Write(_, _) =>
    case Index(_) =>
    case End =>
  }

  lemma PhaseMoves(s: State, step: Step)
    requires Enabled(s, step)
    ensures Started(Apply(s, step).phase) <==> Started(s.phase) || EndsStartup(step)
    ensures EndsStartup(step) ==> !Started(s.phase)
  {
    match step
    case Server(x) => ServerPhaseMoves(s, x);
    case By(t, x) => TaskKeepsPhase(s, t, x);
    case Mutate(m, x) => MutationKeepsPhase(s, m, x);
  }

  /** A run ends the startup exactly once if it leaves the server started, and never otherwise. */
  lemma {:induction false} StartupEndsOnce(s: State, steps: seq<Step>)
    requires ValidRun(s, steps)
    ensures StartupEnds(steps) == if !Started(s.phase) && Started(Run(s, steps).phase) then 1 else 0
    ensures Started(s.phase) ==> Started(Run(s, steps).phase)
    decreases |steps|
  {
    if steps != [] {
      PhaseMoves(s, steps[0]);
      StartupEndsOnce(Apply(s, steps[0]), steps[1..]);
    }
  }

  lemma {:induction false} StartupEndIsThere(steps: seq<Step>)
    requires StartupEnds(steps) > 0
    ensures exists i :: 0 <= i < |steps| && (steps[i] == Server(ReconcileEnd) || steps[i] == Server(StartupTimeout))
  {
    if steps[0] != Server(ReconcileEnd) && steps[0] != Server(StartupTimeout) {
      StartupEndIsThere(steps[1..]);
      var i :| 0 <= i < |steps[1..]|
               && (steps[1..][i] == Server(ReconcileEnd) || steps[1..][i] == Server(StartupTimeout));
      assert steps[i + 1] == steps[1..][i];
    }
  }

  /** A server that serves, drains or has stopped finished its startup sweep or ran out of the startup budget. */
  lemma ServingMeansSweptOrTimedOut(s: State, steps: seq<Step>)
    requires Init(s) && ValidRun(s, steps)
    requires Run(s, steps).phase.Serving? || Run(s, steps).phase.Draining? || Run(s, steps).phase.Stopped?
    ensures exists i :: 0 <= i < |steps| && (steps[i] == Server(ReconcileEnd) || steps[i] == Server(StartupTimeout))
  {
    StartupEndsOnce(s, steps);
    StartupEndIsThere(steps);
  }

  /** Only one of the two happens, and once: a startup that ran out of budget never sweeps later. */
  lemma {:induction false} StartupEndsAreApart(s: State, steps: seq<Step>, i: nat, j: nat)
    requires ValidRun(s, steps) && i < j < |steps|
    requires steps[i] == Server(ReconcileEnd) || steps[i] == Server(StartupTimeout)
    ensures steps[j] != Server(ReconcileEnd) && steps[j] != Server(StartupTimeout) && !IsSweep(steps[j])
    decreases |steps|
  {
    if i > 0 {
      StartupEndsAreApart(Apply(s, steps[0]), steps[1..], i - 1, j - 1);
    } else {
      PhaseMoves(s, steps[0]);
      NoSweepOnceStarted(Apply(s, steps[0]), steps[1..], j - 1);
    }
  }

  predicate IsSweep(step: Step) {
    step.Server? && step.server.ReconcileSweep?
  }

  lemma {:induction false} NoSweepOnceStarted(s: State, steps: seq<Step>, j: nat)
    requires ValidRun(s, steps) && j < |steps| && Started(s.phase)
    ensures steps[j] != Server(ReconcileEnd) && steps[j] != Server(StartupTimeout) && !IsSweep(steps[j])
    decreases |steps|
  {
    PhaseMoves(s, steps[0]);
    if j > 0 {
      NoSweepOnceStarted(Apply(s, steps[0]), steps[1..], j - 1);
    }
  }

  /**
   * From every reachable state where the startup sync has come to its end in time, `StartupFinished` leads to the
   * sweep, whatever it makes of the vault, and through it to serving.
   */
  lemma CompletedStartupSweeps(s: State, steps: seq<Step>, tree': Tree, index': Tree)
    requires Init(s) && ValidRun(s, steps) && Run(s, steps).phase.Waiting?
    requires var e := Run(s, steps); e.phase.task in e.tasks && e.tasks[e.phase.task].pc == Done
    requires Run(s, steps).tree == Run(s, steps).index ==> tree' == index'
    ensures var on := steps + [Server(StartupFinished), Server(ReconcileSweep(tree', index')), Server(ReconcileEnd)];
            ValidRun(s, on) && Run(s, on) == Run(s, steps).(tree := tree', index := index', phase := Serving)
  {
    SweepRuns(Run(s, steps), StartupFinished, tree', index');
    RunConcat(s, steps, [Server(StartupFinished), Server(ReconcileSweep(tree', index')), Server(ReconcileEnd)]);
  }

  /** And a vault without a sync runtime sweeps at once. */
  lemma SkippedStartupSweeps(s: State, tree': Tree)
    requires Init(s)
    ensures var on := [Server(StartupSkip), Server(ReconcileSweep(tree', tree')), Server(ReconcileEnd)];
            ValidRun(s, on) && Run(s, on) == s.(tree := tree', index := tree', phase := Serving)
  {
    SweepRuns(s, StartupSkip, tree', tree');
  }

  lemma SweepRuns(s: State, first: ServerStep, tree': Tree, index': Tree)
    requires first.StartupFinished? || first.StartupSkip?
    requires ServerEnabled(s, first) && (s.tree == s.index ==> tree' == index')
    ensures var on := [Server(first), Server(ReconcileSweep(tree', index')), Server(ReconcileEnd)];
            ValidRun(s, on) && Run(s, on) == s.(tree := tree', index := index', phase := Serving)
  {
    var s1 := ServerApply(s, first);
    var s2 := ServerApply(s1, ReconcileSweep(tree', index'));
    Prepend(s2, Server(ReconcileEnd), []);
    Prepend(s1, Server(ReconcileSweep(tree', index')), [Server(ReconcileEnd)] + []);
    Prepend(s, Server(first), [Server(ReconcileSweep(tree', index'))] + ([Server(ReconcileEnd)] + []));
    assert [Server(first)] + ([Server(ReconcileSweep(tree', index'))] + ([Server(ReconcileEnd)] + []))
        == [Server(first), Server(ReconcileSweep(tree', index')), Server(ReconcileEnd)];
  }

  // ---- Which windows rebuild ----

  /** After the engine, a window rebuilds for an error and for a changed tree, and skips it in every other case. */
  lemma RebuildsExactly(s: State, t: TaskId, o: Outcome, tree': Tree, ok: bool, tree'': Tree, index'': Tree)
    requires TaskAt(s, t, Some(FullSync), InEngine) && TaskEnabled(s, t, EngineReturn(o, tree'))
    ensures var e := TaskApply(s, t, EngineReturn(o, tree'));
            && (TaskEnabled(e, t, Rebuild(ok, tree'', index'')) <==>
                (o == EngineError || o == Finished(true)) && (ok ==> index'' == tree''))
            && (TaskEnabled(e, t, SkipRebuild) <==> o == Finished(false) || o == Refused || o == Panicked)
  {
  }

  /** The run has task `t` rebuild. */
  ghost predicate Rebuilds(steps: seq<Step>, t: TaskId) {
    exists i :: 0 <= i < |steps| && RebuildBy(steps[i], t)
  }

  predicate RebuildBy(step: Step, t: TaskId) {
    step.By? && step.task == t && step.step.Rebuild?
  }

  /** The run has `t`'s engine return with an error or a changed tree. */
  ghost predicate ReturnsChange(steps: seq<Step>, t: TaskId) {
    exists i :: 0 <= i < |steps| && ChangeBy(steps[i], t)
  }

  predicate ChangeBy(step: Step, t: TaskId) {
    step.By? && step.task == t && step.step.EngineReturn?
    && (step.step.outcome == EngineError || step.step.outcome == Finished(true))
  }

  lemma RebuildsTail(steps: seq<Step>, t: TaskId)
    requires steps != []
    ensures Rebuilds(steps, t) <==> RebuildBy(steps[0], t) || Rebuilds(steps[1..], t)
  {
    if Rebuilds(steps[1..], t) {
      var i :| 0 <= i < |steps[1..]| && RebuildBy(steps[1..][i], t);
      assert RebuildBy(steps[i + 1], t);
    }
    if Rebuilds(steps, t) && !RebuildBy(steps[0], t) {
      var i :| 0 <= i < |steps| && RebuildBy(steps[i], t);
      assert RebuildBy(steps[1..][i - 1], t);
    }
  }

  lemma ReturnsTail(steps: seq<Step>, t: TaskId)
    requires steps != []
    ensures ReturnsChange(steps, t) <==> ChangeBy(steps[0], t) || ReturnsChange(steps[1..], t)
  {
    if ReturnsChange(steps[1..], t) {
      var i :| 0 <= i < |steps[1..]| && ChangeBy(steps[1..][i], t);
      assert ChangeBy(steps[i + 1], t);
    }
    if ReturnsChange(steps, t) && !ChangeBy(steps[0], t) {
      var i :| 0 <= i < |steps| && ChangeBy(steps[i], t);
      assert ChangeBy(steps[1..][i - 1], t);
    }
  }

  lemma ServerKeepsTask(s: State, step: ServerStep, t: TaskId)
    requires ServerEnabled(s, step) && t in s.tasks
    ensures t in ServerApply(s, step).tasks && ServerApply(s, step).tasks[t] == s.tasks[t]
  {
    match step
    case StartupSync(_) =>
    case StartupSkip =>
    case StartupFinished =>
    case StartupTimeout =>
    case ReconcileSweep(_, _) =>
    case ReconcileEnd =>
    case BeginDrain =>
    case Stop =>
    case Spawn(_, _) =>
  }

  predicate Own(step: Step, t: TaskId) {
    step.By? && step.task == t && !step.step.OrphanReturn?
  }

  /** A step leaves task `t` alone unless it is `t`'s own. */
  lemma TaskStays(s: State, step: Step, t: TaskId)
    requires Enabled(s, step) && t in s.tasks
    ensures t in Apply(s, step).tasks && Apply(s, step).tasks[t].kind == s.tasks[t].kind
    ensures !Own(step, t) ==> Apply(s, step).tasks[t] == s.tasks[t]
  {
    match step
    case Server(x) => ServerKeepsTask(s, x, t);
    case By(u, x) => TasksOnlyAdvance(s, u, x, t);
    case Mutate(m, x) => MutationKeepsPhase(s, m, x);
  }

  /** What a full sync that reaches its end still has to do from where it is. */
  ghost predicate WillRebuild(pc: Pc, steps: seq<Step>, t: TaskId) {
    if pc.Returned? then pc.outcome == EngineError || pc.outcome == Finished(true)
    else !pc.Closing? && !pc.Unpaused? && !pc.GateOpen? && !pc.FlagDown? && !pc.Done? && ReturnsChange(steps, t)
  }

  /** An engine returns once: past its return a window sees no other. */
  lemma {:induction false} ReturnsOnce(s: State, steps: seq<Step>, t: TaskId)
    requires ValidRun(s, steps) && t in s.tasks && Rank(s.tasks[t].pc) <= 5
    ensures !ReturnsChange(steps, t)
    decreases |steps|
  {
    if steps != [] {
      TaskStays(s, steps[0], t);
      if Own(steps[0], t) {
        TasksOnlyAdvance(s, t, steps[0].step, t);
      }
      ReturnsTail(steps, t);
      ReturnsOnce(Apply(s, steps[0]), steps[1..], t);
    }
  }

  lemma WillRebuildOwn(s: State, step: TaskStep, steps: seq<Step>, t: TaskId)
    requires t in s.tasks && s.tasks[t].kind.FullSync? && TaskEnabled(s, t, step) && !step.OrphanReturn?
    requires steps != [] && steps[0] == By(t, step) && ValidRun(TaskApply(s, t, step), steps[1..])
    ensures WillRebuild(s.tasks[t].pc, steps, t) <==>
            step.Rebuild? || WillRebuild(TaskApply(s, t, step).tasks[t].pc, steps[1..], t)
  {
    ReturnsTail(steps, t);
    if step.EngineReturn? {
      ReturnsOnce(TaskApply(s, t, step), steps[1..], t);
    }
    match step
    case AcquireLock =>
    case RaiseSyncing =>
    case AcquireGate =>
    case PauseWatcher =>
    case CallEngine =>
    case EngineReturn(_, _) =>
    case Rebuild(_, _, _) =>
    case SkipRebuild =>
    case Unpause =>
    case OpenGate =>
    case LowerSyncing =>
    case ReleaseLock =>
  }

  lemma WillRebuildStep(s: State, steps: seq<Step>, t: TaskId)
    requires steps != [] && ValidRun(s, steps) && t in s.tasks && s.tasks[t].kind.FullSync?
    requires t in Apply(s, steps[0]).tasks
    ensures WillRebuild(s.tasks[t].pc, steps, t) <==>
            RebuildBy(steps[0], t) || WillRebuild(Apply(s, steps[0]).tasks[t].pc, steps[1..], t)
  {
    TaskStays(s, steps[0], t);
    if Own(steps[0], t) {
      WillRebuildOwn(s, steps[0].step, steps, t);
    } else {
      ReturnsTail(steps, t);
    }
  }

  lemma {:induction false} FinishedSyncRebuilt(s: State, steps: seq<Step>, t: TaskId)
    requires ValidRun(s, steps) && t in s.tasks && s.tasks[t].kind.FullSync?
    requires TaskAt(Run(s, steps), t, None, Done)
    ensures Rebuilds(steps, t) <==> WillRebuild(s.tasks[t].pc, steps, t)
    decreases |steps|
  {
    if steps != [] {
      TaskStays(s, steps[0], t);
      WillRebuildStep(s, steps, t);
      RebuildsTail(steps, t);
      FinishedSyncRebuilt(Apply(s, steps[0]), steps[1..], t);
    }
  }

  /**
   * The sweep a timed-out startup leaves to its window is run by that window, once it is over, if and only if its
   * engine returned an error or a changed tree: for every run after the server began to wait.
   */
  lemma DeferredSweepRunsExactly(s: State, steps: seq<Step>, t: TaskId)
    requires Init(s) && ValidRun(s, [Server(StartupSync(t))] + steps)
    requires TaskAt(Run(s, [Server(StartupSync(t))] + steps), t, None, Done)
    ensures Rebuilds(steps, t) <==> ReturnsChange(steps, t)
  {
    assert ([Server(StartupSync(t))] + steps)[1..] == steps;
    FinishedSyncRebuilt(ServerApply(s, StartupSync(t)), steps, t);
  }

  ghost predicate NoSweepIn(steps: seq<Step>, t: TaskId) {
    forall i :: 0 <= i < |steps| ==> !IsSweep(steps[i]) && !RebuildBy(steps[i], t)
  }

  lemma TimeoutAndQuietEnd(e: State, t: TaskId) returns (rest: seq<Step>)
    requires e.phase == Waiting(t) && TaskAt(e, t, Some(FullSync), InEngine)
    ensures ValidRun(e, rest) && Run(e, rest).phase.Serving? && TaskAt(Run(e, rest), t, None, Done)
    ensures NoSweepIn(rest, t)
  {
    var e' := ServerApply(e, StartupTimeout);
    var on := WindowsAlwaysClose(e', t);
    assert Solo(e', t, on) && !Owes(e'.tasks[t].pc);
    Prepend(e, Server(StartupTimeout), on);
    rest := [Server(StartupTimeout)] + on;
  }

  /** So a startup that times out on a window that changes nothing serves without any sweep at all. */
  lemma DeferredSweepIsLost(s: State, t: TaskId) returns (steps: seq<Step>)
    requires Init(s)
    ensures ValidRun(s, steps) && Run(s, steps).phase.Serving? && TaskAt(Run(s, steps), t, None, Done)
    ensures NoSweepIn(steps, t)
  {
    var up := StartupReachesTheEngine(s, t);
    var rest := TimeoutAndQuietEnd(Run(s, up), t);
    RunConcat(s, up, rest);
    assert NoSweepIn(up, t);
    steps := up + rest;
  }

  // ---- Every reachable state can run its work to the end ----

  lemma {:induction false} EndMutations(s: State) returns (steps: seq<Step>)
    requires Inv(s)
    ensures ValidRun(s, steps) && Run(s, steps).mutations == map[] && Run(s, steps).tasks == s.tasks
    ensures forall i :: 0 <= i < |steps| ==> steps[i].Mutate?
    decreases |s.mutations|
  {
    if s.mutations == map[] {
      steps := [];
    } else {
      var m :| m in s.mutations;
      var s' := MutationApply(s, m, End);
      MutationKeepsPhase(s, m, End);
      MutationStepKeepsInv(s, m, End);
      assert |s'.mutations| < |s.mutations| by {
        assert s'.mutations.Keys < s.mutations.Keys;
        SmallerSet(s'.mutations.Keys, s.mutations.Keys);
      }
      var rest := EndMutations(s');
      Prepend(s, Mutate(m, End), rest);
      steps := [Mutate(m, End)] + rest;
    }
  }

  lemma SmallerSet(a: set<nat>, b: set<nat>)
    requires a < b
    ensures |a| < |b|
  {
    assert b == a + (b - a);
  }

  function Unfinished(s: State): set<TaskId> {
    set t | t in s.tasks && !s.tasks[t].pc.Done?
  }

  /** Which one can go next: the one that holds the lock, or any if nobody does. */
  lemma NextTask(s: State) returns (t: TaskId)
    requires Inv(s) && s.mutations == map[] && Unfinished(s) != {}
    ensures t in Unfinished(s) && Unblocked(s, t)
  {
    HoldersExist(s);
    if s.lock.Some? {
      t := s.lock.value;
    } else {
      t :| t in Unfinished(s);
    }
    assert TaskOk(s, t);
  }

  lemma {:induction false} FinishTasks(s: State) returns (steps: seq<Step>)
    requires Inv(s) && s.mutations == map[]
    ensures ValidRun(s, steps) && Run(s, steps).mutations == map[] && Unfinished(Run(s, steps)) == {}
    ensures forall i :: 0 <= i < |steps| ==> steps[i].By?
    decreases |Unfinished(s)|
  {
    if Unfinished(s) == {} {
      steps := [];
    } else {
      var t := NextTask(s);
      var first := WindowsAlwaysClose(s, t);
      var s' := Run(s, first);
      RunKeepsInv(s, first);
      assert Solo(s, t, first);
      assert Unfinished(s') < Unfinished(s) by {
        assert t in Unfinished(s) && t !in Unfinished(s');
      }
      SmallerSet(Unfinished(s'), Unfinished(s));
      var rest := FinishTasks(s');
      RunConcat(s, first, rest);
      steps := first + rest;
    }
  }

  /** Engine calls that outlived their tasks return on their own. */
  lemma {:induction false} ReturnOrphans(s: State) returns (steps: seq<Step>)
    requires Unfinished(s) == {}
    ensures ValidRun(s, steps) && Run(s, steps).engines == {}
    ensures Run(s, steps).mutations == s.mutations && Run(s, steps).tasks == s.tasks
    ensures forall i :: 0 <= i < |steps| ==> steps[i].By?
    decreases |s.engines|
  {
    if s.engines == {} {
      steps := [];
    } else {
      var t :| t in s.engines;
      assert t !in Unfinished(s);
      var s' := TaskApply(s, t, OrphanReturn);
      assert s' == s.(engines := s.engines - {t});
      SmallerSet(s'.engines, s.engines);
      var rest := ReturnOrphans(s');
      Prepend(s, By(t, OrphanReturn), rest);
      steps := [By(t, OrphanReturn)] + rest;
    }
  }

  /**
   * No interleaving can paint the system into a corner: from every state a run reaches, the mutations, tasks and
   * engine calls under way can all be run to their ends by steps of their own, after which lock and gate are free
   * and both flags are down.
   */
  lemma NoDeadlock(s: State, steps: seq<Step>) returns (on: seq<Step>)
    requires Init(s) && ValidRun(s, steps)
    ensures ValidRun(Run(s, steps), on) && forall i :: 0 <= i < |on| ==> on[i].By? || on[i].Mutate?
    ensures var e := Run(Run(s, steps), on);
            && e.lock.None? && e.gate.None? && !e.syncing && !e.paused && e.mutations == map[] && e.engines == {}
            && forall t :: t in e.tasks ==> e.tasks[t].pc == Done
  {
    InitHolds(s);
    RunKeepsInv(s, steps);
    var e := Run(s, steps);
    var first := EndMutations(e);
    RunKeepsInv(e, first);
    var second := FinishTasks(Run(e, first));
    RunConcat(e, first, second);
    var third := ReturnOrphans(Run(e, first + second));
    RunConcat(e, first + second, third);
    on := first + second + third;
    RunKeepsInv(e, on);
    var f := Run(e, on);
    HoldersExist(f);
    forall t | t in f.tasks ensures f.tasks[t].pc == Done {
      assert t !in Unfinished(f);
    }
  }

  // ---- Shutdown ----

  /** No shutdown push exists yet and no engine call has been cut loose. */
  ghost predicate BeforeShutdown(s: State) {
    !s.orphaned && forall t :: t in s.tasks ==> !s.tasks[t].kind.ShutdownPush?
  }

  ghost predicate Orderly(s: State) {
    s.phase.Draining? || s.phase.Stopped? || BeforeShutdown(s)
  }

  lemma ServerStaysOrderly(s: State, step: ServerStep)
    requires Orderly(s) && ServerEnabled(s, step)
    ensures Orderly(ServerApply(s, step))
  {
    match step
    case StartupSync(_) =>
    case StartupSkip =>
    case StartupFinished =>
    case StartupTimeout =>
    case ReconcileSweep(_, _) =>
    case ReconcileEnd =>
    case BeginDrain =>
    case Stop =>
    case Spawn(_, _) =>
  }

  lemma TaskStaysOrderly(s: State, t: TaskId, step: TaskStep)
    requires Orderly(s) && TaskEnabled(s, t, step)
    ensures Orderly(TaskApply(s, t, step))
  {
    TaskKeepsPhase(s, t, step);
  }

  lemma {:induction false} RunStaysOrderly(s: State, steps: seq<Step>)
    requires Orderly(s) && ValidRun(s, steps)
    ensures Orderly(Run(s, steps))
    decreases |steps|
  {
    if steps != [] {
      match steps[0] {
        case Server(x) => ServerStaysOrderly(s, x);
        case By(t, x) => TaskStaysOrderly(s, t, x);
        case Mutate(m, x) => MutationKeepsPhase(s, m, x);
      }
      RunStaysOrderly(Apply(s, steps[0]), steps[1..]);
    }
  }

  /**
   * Until the server drains there is no shutdown push, no engine call outlives its task, and at most one runs at
   * a time, by the lock's owner: aborts can break that only after serving is over.
   */
  lemma ServingIsOrderly(s: State, steps: seq<Step>)
    requires Init(s) && ValidRun(s, steps)
    requires !Run(s, steps).phase.Draining? && !Run(s, steps).phase.Stopped?
    ensures var e := Run(s, steps);
            && (forall t :: t in e.tasks ==> e.tasks[t].kind == FullSync || e.tasks[t].kind == AutoCommit)
            && (forall t :: t in e.engines ==> e.lock == Some(t) && t in e.tasks && e.tasks[t].pc == InEngine)
  {
    RunStaysOrderly(s, steps);
    InitHolds(s);
    RunKeepsInv(s, steps);
    var e := Run(s, steps);
    forall t | t in e.engines ensures e.lock == Some(t) && t in e.tasks && e.tasks[t].pc == InEngine {
      assert TaskOk(e, t);
    }
  }

  /** What a mutation does to the vault: a write sets one file, indexing copies that file's state, and no more. */
  lemma MutationMeans(s: State, m: MutationId, step: MutationStep, q: Path)
    requires MutationEnabled(s, m, step)
    ensures var e := MutationApply(s, m, step);
            && At(e.tree, q) == (if step.Write? && step.path == q then step.content else At(s.tree, q))
            && At(e.index, q) == (if step.Index? && step.path == q then At(s.tree, q) else At(s.index, q))
            && (At(e.tree, q) != At(s.tree, q) || At(e.index, q) != At(s.index, q) ==>
                  m in s.mutations && q in s.mutations[m].paths)
  {
    match step
    case Begin(_, _) =>
    case Write(_, _) =>
    case Index(_) =>
    case End =>
  }

  /** Which work may begin when: syncs and autocommits while serving, the shutdown push while draining. */
  lemma SpawnsExactly(s: State, t: TaskId, kind: Kind)
    ensures Enabled(s, Server(Spawn(t, kind))) <==>
            t !in s.tasks && if kind == ShutdownPush then s.phase == Draining else s.phase == Serving
  {
  }

  /** A mutation that indexes what it wrote leaves nothing behind: one file changes, in tree and index alike. */
  lemma WriteAndIndex(s: State, m: MutationId, p: Path, content: Option<int>)
    requires s.phase.Serving? && s.gate.None? && m !in s.mutations
    ensures var steps := [Mutate(m, Begin({p}, false)), Mutate(m, Write(p, content)), Mutate(m, Index(p)),
                          Mutate(m, End)];
            && ValidRun(s, steps) && BenignRun(s, steps)
            && Run(s, steps) == s.(tree := Put(s.tree, p, content), index := Put(s.index, p, content))
  {
    var s1 := MutationApply(s, m, Begin({p}, false));
    var s2 := MutationApply(s1, m, Write(p, content));
    var s3 := MutationApply(s2, m, Index(p));
    EndsClean(s, s1, s2, s3, m, p, content);
    var d := [Mutate(m, End)];
    var c := [Mutate(m, Index(p))] + d;
    var b := [Mutate(m, Write(p, content))] + c;
    assert d == [Mutate(m, End)] + [];
    Prepend(s3, Mutate(m, End), []);
    Prepend(s2, Mutate(m, Index(p)), d);
    Prepend(s1, Mutate(m, Write(p, content)), c);
    Prepend(s, Mutate(m, Begin({p}, false)), b);
    BenignCons(s3, Mutate(m, End), []);
    BenignCons(s2, Mutate(m, Index(p)), d);
    BenignCons(s1, Mutate(m, Write(p, content)), c);
    BenignCons(s, Mutate(m, Begin({p}, false)), b);
    assert [Mutate(m, Begin({p}, false))] + b
        == [Mutate(m, Begin({p}, false)), Mutate(m, Write(p, content)), Mutate(m, Index(p)), Mutate(m, End)];
  }

  lemma EndsClean(s: State, s1: State, s2: State, s3: State, m: MutationId, p: Path, content: Option<int>)
    requires s.phase.Serving? && s.gate.None? && m !in s.mutations
    requires s1 == MutationApply(s, m, Begin({p}, false)) && MutationEnabled(s1, m, Write(p, content))
    requires s2 == MutationApply(s1, m, Write(p, content)) && MutationEnabled(s2, m, Index(p))
    requires s3 == MutationApply(s2, m, Index(p))
    ensures m in s3.mutations && s3.mutations[m].written == {}
    ensures MutationApply(s3, m, End) == s.(tree := Put(s.tree, p, content), index := Put(s.index, p, content))
  {
    assert s3.mutations - {m} == s.mutations;
  }

  lemma BenignCons(s: State, step: Step, steps: seq<Step>)
    requires Enabled(s, step) && ValidRun(Apply(s, step), steps)
    requires Benign(s, step) && BenignRun(Apply(s, step), steps)
    ensures ValidRun(s, [step] + steps) && BenignRun(s, [step] + steps)
  {
    Prepend(s, step, steps);
    assert ([step] + steps)[1..] == steps;
  }

  /** The way down: a serving server can drain, push once more and stop. */
  lemma ShutdownRuns(s: State, t: TaskId)
    requires s.phase.Serving? && t !in s.tasks
    ensures var on := [Server(BeginDrain), Server(Spawn(t, ShutdownPush)), Server(Stop)];
            ValidRun(s, on) && Run(s, on).phase.Stopped? && TaskAt(Run(s, on), t, Some(ShutdownPush), WantLock)
  {
    var s1 := ServerApply(s, BeginDrain);
    var s2 := ServerApply(s1, Spawn(t, ShutdownPush));
    Prepend(s2, Server(Stop), []);
    Prepend(s1, Server(Spawn(t, ShutdownPush)), [Server(Stop)] + []);
    Prepend(s, Server(BeginDrain), [Server(Spawn(t, ShutdownPush))] + ([Server(Stop)] + []));
    assert [Server(BeginDrain)] + ([Server(Spawn(t, ShutdownPush))] + ([Server(Stop)] + []))
        == [Server(BeginDrain), Server(Spawn(t, ShutdownPush)), Server(Stop)];
  }
}

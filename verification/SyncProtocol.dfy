/**
 * The git sync quiesce protocol: full syncs, autocommits, the shutdown push, vault mutations and server
 * startup contend for `sync_lock`, the mutation gate, the watcher-pause flag and the `syncing` flag.
 *
 * Every await point is a program counter and every step of every task may interleave. The engine, the
 * index rebuild and the reconcile sweep are nondeterministic steps.
 */
module SyncProtocol {
  import opened Common

  type TaskId = nat
  type MutationId = nat
  type Path = nat
  type Tree = map<Path, int>

  datatype Kind = FullSync | AutoCommit | ShutdownPush

  /** How one engine call ends. */
  datatype Outcome = Finished(treeChanged: bool) | EngineError | Refused | Panicked

  /** Where a task is. Autocommit and the shutdown push use only the points marked (*). */
  datatype Pc =
    | WantLock            // (*)
    | HasLock
    | WantGate            // (*)
    | HasGate             // (*)
    | WatcherPaused
    | InEngine            // (*)
    | Returned(outcome: Outcome)
    | Closing
    | Unpaused            // (*) gate still shut
    | GateOpen            // (*)
    | FlagDown
    | Done                // (*)

  datatype Task = Task(kind: Kind, pc: Pc)

  /**
   * A vault mutation: the paths it may write, and those written but not indexed yet. An exclusive one (tag
   * rename, reference repair) holds the gate's write side.
   */
  datatype Mutation = Mutation(paths: set<Path>, written: set<Path>, exclusive: bool)

  datatype GateHolder = Window(task: TaskId) | Exclusive(mutation: MutationId)

  datatype Phase = Booting | Waiting(task: TaskId) | Reconciling | Serving | Draining | Stopped

  datatype State = State(
    tasks: map<TaskId, Task>,
    lock: Option<TaskId>,
    gate: Option<GateHolder>,
    mutations: map<MutationId, Mutation>,   // the gate's readers, plus at most one exclusive holder
    syncing: bool,
    paused: bool,
    engines: set<TaskId>,                   // engine calls outstanding, by the task that made them
    orphaned: bool,                         // an engine call outlived the task that made it
    phase: Phase,
    tree: Tree,
    index: Tree,
    stale: bool)                            // a panic moved the tree, a rebuild failed or a mutation left a write
                                            // unindexed, and nothing rebuilt since

  datatype ServerStep =
    | StartupSync(task: TaskId)
    | StartupSkip
    | StartupFinished
    | StartupTimeout
    | ReconcileSweep(tree': Tree, index': Tree)
    | ReconcileEnd
    | BeginDrain
    | Stop
    | Spawn(task: TaskId, kind: Kind)

  datatype TaskStep =
    | AcquireLock
    | RaiseSyncing
    | AcquireGate
    | PauseWatcher
    | CallEngine
    | EngineReturn(outcome: Outcome, tree': Tree)
    | Rebuild(ok: bool, tree': Tree, index': Tree)
    | SkipRebuild
    | Unpause
    | OpenGate
    | LowerSyncing
    | ReleaseLock
    | Abort
    | OrphanReturn

  datatype MutationStep =
    | Begin(paths: set<Path>, exclusive: bool)
    | Write(path: Path, content: Option<int>)
    | Index(path: Path)
    | End

  datatype Step =
    | Server(server: ServerStep)
    | By(task: TaskId, step: TaskStep)
    | Mutate(mutation: MutationId, change: MutationStep)

  // ---- What each point of a task holds ----

  predicate HoldsLock(pc: Pc) {
    !pc.WantLock? && !pc.Done?
  }

  predicate HoldsGate(pc: Pc) {
    pc.HasGate? || pc.WatcherPaused? || pc.InEngine? || pc.Returned? || pc.Closing? || pc.Unpaused?
  }

  predicate Flagged(t: Task) {
    t.kind.FullSync? && HoldsLock(t.pc) && !t.pc.HasLock? && !t.pc.FlagDown?
  }

  predicate Pausing(t: Task) {
    t.kind.FullSync? && (t.pc.WatcherPaused? || t.pc.InEngine? || t.pc.Returned? || t.pc.Closing?)
  }

  predicate Reaches(kind: Kind, pc: Pc) {
    kind.FullSync? ||
    pc.WantLock? || pc.WantGate? || pc.HasGate? || pc.InEngine? || pc.Unpaused? || pc.GateOpen? || pc.Done?
  }

  /** `rebuild_after_sync` runs after a changed tree and after any error except a refusal. */
  predicate NeedsRebuild(o: Outcome) {
    o.EngineError? || (o.Finished? && o.treeChanged)
  }

  function At(t: Tree, p: Path): Option<int> {
    if p in t then Some(t[p]) else None
  }

  function Put(t: Tree, p: Path, v: Option<int>): Tree {
    if v.Some? then t[p := v.value] else t - {p}
  }

  predicate TaskAt(s: State, t: TaskId, kind: Option<Kind>, pc: Pc) {
    t in s.tasks && s.tasks[t].pc == pc && (kind.Some? ==> s.tasks[t].kind == kind.value)
  }

  predicate ServerEnabled(s: State, step: ServerStep) {
    match step
    case StartupSync(t) => s.phase.Booting? && t !in s.tasks
    case StartupSkip => s.phase.Booting?
    case StartupFinished => s.phase.Waiting? && TaskAt(s, s.phase.task, None, Done)
    case StartupTimeout => s.phase.Waiting?
    case ReconcileSweep(tree', index') => s.phase.Reconciling? && (s.tree == s.index ==> tree' == index')
    case ReconcileEnd => s.phase.Reconciling?
    case BeginDrain => s.phase.Serving?
    case Stop => s.phase.Draining?
    case Spawn(t, kind) => t !in s.tasks && (if kind.ShutdownPush? then s.phase.Draining? else s.phase.Serving?)
  }

  function ServerApply(s: State, step: ServerStep): State {
    match step
    case StartupSync(t) => s.(phase := Waiting(t), tasks := s.tasks[t := Task(FullSync, WantLock)])
    case StartupSkip => s.(phase := Reconciling)
    case StartupFinished => s.(phase := Reconciling)
    case StartupTimeout => s.(phase := Serving)
    case ReconcileSweep(tree', index') => s.(tree := tree', index := index')
    case ReconcileEnd => s.(phase := Serving)
    case BeginDrain => s.(phase := Draining)
    case Stop => s.(phase := Stopped)
    case Spawn(t, kind) => s.(tasks := s.tasks[t := Task(kind, WantLock)])
  }

  /** When a task's step can happen; the conditions on an engine's result are the engine's own promises. */
  predicate TaskEnabled(s: State, t: TaskId, step: TaskStep) {
    if step.OrphanReturn? then t in s.engines && !TaskAt(s, t, None, InEngine)
    else
      && t in s.tasks
      && var Task(kind, pc) := s.tasks[t];
      match step
      case AcquireLock => pc.WantLock? && s.lock.None?
      case RaiseSyncing => kind.FullSync? && pc.HasLock?
      case AcquireGate => pc.WantGate? && s.gate.None? && s.mutations == map[]
      case PauseWatcher => kind.FullSync? && pc.HasGate?
      case CallEngine => if kind.FullSync? then pc.WatcherPaused? else pc.HasGate?
      case EngineReturn(o, tree') =>
        pc.InEngine? && (!kind.FullSync? || o.Refused? || o == Finished(false) ==> tree' == s.tree)
      case Rebuild(ok, tree', index') => pc.Returned? && NeedsRebuild(pc.outcome) && (ok ==> index' == tree')
      case SkipRebuild => pc.Returned? && !NeedsRebuild(pc.outcome)
      case Unpause => kind.FullSync? && pc.Closing?
      case OpenGate => pc.Unpaused?
      case LowerSyncing => kind.FullSync? && pc.GateOpen?
      case ReleaseLock => if kind.FullSync? then pc.FlagDown? else pc.GateOpen?
      case Abort => !kind.FullSync? && !pc.Done? && (kind.AutoCommit? ==> s.phase.Stopped?)
      case OrphanReturn => true
  }

  /** The program counter after a step. */
  function NextPc(kind: Kind, step: TaskStep): Pc {
    match step
    case AcquireLock => if kind.FullSync? then HasLock else WantGate
    case RaiseSyncing => WantGate
    case AcquireGate => HasGate
    case PauseWatcher => WatcherPaused
    case CallEngine => InEngine
    case EngineReturn(o, _) => if kind.FullSync? then Returned(o) else Unpaused
    case Rebuild(_, _, _) => Closing
    case SkipRebuild => Closing
    case Unpause => Unpaused
    case OpenGate => GateOpen
    case LowerSyncing => FlagDown
    case ReleaseLock => Done
    case Abort => Done
    case OrphanReturn => Done
  }

  /** The shared state after a step, the task's own program counter apart. */
  function SharedApply(s: State, t: TaskId, pc: Pc, step: TaskStep): State {
    match step
    case AcquireLock => s.(lock := Some(t))
    case RaiseSyncing => s.(syncing := true)
    case AcquireGate => s.(gate := Some(Window(t)))
    case PauseWatcher => s.(paused := true)
    case CallEngine => s.(engines := s.engines + {t})
    case EngineReturn(o, tree') =>
      s.(engines := s.engines - {t}, tree := tree', stale := s.stale || (o.Panicked? && tree' != s.tree))
    case Rebuild(ok, tree', index') => s.(tree := tree', index := index', stale := !ok)
    case SkipRebuild => s
    case Unpause => s.(paused := false)
    case OpenGate => s.(gate := None)
    case LowerSyncing => s.(syncing := false)
    case ReleaseLock => s.(lock := None)
    case Abort => s.(lock := if HoldsLock(pc) then None else s.lock,
                     gate := if HoldsGate(pc) then None else s.gate,
                     orphaned := s.orphaned || pc.InEngine?)
    case OrphanReturn => s.(engines := s.engines - {t})
  }

  function TaskApply(s: State, t: TaskId, step: TaskStep): State
    requires TaskEnabled(s, t, step)
  {
    if step.OrphanReturn? then SharedApply(s, t, Done, step)
    else
      var task := s.tasks[t];
      SharedApply(s, t, task.pc, step).(tasks := s.tasks[t := task.(pc := NextPc(task.kind, step))])
  }

  predicate MutationEnabled(s: State, m: MutationId, step: MutationStep) {
    match step
    case Begin(_, exclusive) =>
      m !in s.mutations && s.gate.None? && s.phase.Serving? && (exclusive ==> s.mutations == map[])
    case Write(path, _) => m in s.mutations && path in s.mutations[m].paths
    case Index(path) => m in s.mutations && path in s.mutations[m].paths
    case End => m in s.mutations
  }

  function MutationApply(s: State, m: MutationId, step: MutationStep): State
    requires MutationEnabled(s, m, step)
  {
    match step
    case Begin(paths, exclusive) =>
      s.(mutations := s.mutations[m := Mutation(paths, {}, exclusive)],
         gate := if exclusive then Some(Exclusive(m)) else None)
    case Write(p, content) =>
      s.(tree := Put(s.tree, p, content),
         mutations := s.mutations[m := s.mutations[m].(written := s.mutations[m].written + {p})])
    case Index(p) =>
      s.(index := Put(s.index, p, At(s.tree, p)),
         mutations := s.mutations[m := s.mutations[m].(written := s.mutations[m].written - {p})])
    case End =>
      s.(mutations := s.mutations - {m}, gate := if s.mutations[m].exclusive then None else s.gate,
         stale := s.stale || s.mutations[m].written != {})
  }

  predicate Enabled(s: State, step: Step) {
    match step
    case Server(x) => ServerEnabled(s, x)
    case By(t, x) => TaskEnabled(s, t, x)
    case Mutate(m, x) => MutationEnabled(s, m, x)
  }

  function Apply(s: State, step: Step): State
    requires Enabled(s, step)
  {
    match step
    case Server(x) => ServerApply(s, x)
    case By(t, x) => TaskApply(s, t, x)
    case Mutate(m, x) => MutationApply(s, m, x)
  }

  // ---- The invariant ----

  ghost predicate LockOk(s: State, t: TaskId) {
    s.lock == Some(t) <==> t in s.tasks && HoldsLock(s.tasks[t].pc)
  }

  ghost predicate GateOk(s: State, t: TaskId) {
    s.gate == Some(Window(t)) <==> t in s.tasks && HoldsGate(s.tasks[t].pc)
  }

  /** A task holds exactly what its program counter says. */
  ghost predicate Holding(s: State, t: TaskId) {
    LockOk(s, t) && GateOk(s, t) && (t in s.tasks ==> Reaches(s.tasks[t].kind, s.tasks[t].pc))
  }

  /** An engine call runs exactly while its task waits for it, unless an abort orphaned it. */
  ghost predicate EngineOk(s: State, t: TaskId) {
    && (TaskAt(s, t, None, InEngine) ==> t in s.engines)
    && (!s.orphaned && t in s.engines ==> TaskAt(s, t, None, InEngine))
  }

  ghost predicate TaskOk(s: State, t: TaskId) {
    Holding(s, t) && EngineOk(s, t)
  }

  /** Each flag is up exactly while its one owner is between raising and lowering it. */
  ghost predicate SyncingOk(s: State) {
    s.syncing <==> s.lock.Some? && s.lock.value in s.tasks && Flagged(s.tasks[s.lock.value])
  }

  ghost predicate PausedOk(s: State) {
    s.paused <==> s.lock.Some? && s.lock.value in s.tasks && Pausing(s.tasks[s.lock.value])
  }

  ghost predicate FlagsOk(s: State) {
    SyncingOk(s) && PausedOk(s)
  }

  ghost predicate MutationOk(s: State, m: MutationId) {
    && (s.gate == Some(Exclusive(m)) <==> m in s.mutations && s.mutations[m].exclusive)
    && (m in s.mutations ==> s.gate.None? || s.gate == Some(Exclusive(m)))
  }

  /** Some mutation has written `p` and not indexed it yet. */
  ghost predicate InFlight(s: State, p: Path) {
    exists m :: m in s.mutations && p in s.mutations[m].written
  }

  /** A full sync's engine has returned and the rebuild it owes has not run yet. */
  ghost predicate OwesRebuild(s: State) {
    s.gate.Some? && s.gate.value.Window? && s.gate.value.task in s.tasks
    && s.tasks[s.gate.value.task].pc.Returned? && NeedsRebuild(s.tasks[s.gate.value.task].pc.outcome)
  }

  ghost predicate PathOk(s: State, p: Path) {
    s.stale || OwesRebuild(s) || InFlight(s, p) || At(s.tree, p) == At(s.index, p)
  }

  /** Before it serves, the server runs at most the startup window, and only once that is over does it reconcile. */
  ghost predicate PhaseOk(s: State) {
    && (s.phase.Booting? ==> s.tasks == map[])
    && (s.phase.Waiting? ==> s.tasks.Keys == {s.phase.task} && s.tasks[s.phase.task].kind.FullSync?)
    && (s.phase.Reconciling? ==> forall t :: t in s.tasks ==> s.tasks[t].pc.Done?)
    && (s.phase.Booting? || s.phase.Waiting? || s.phase.Reconciling? ==> s.mutations == map[] && !s.orphaned)
  }

  ghost predicate Inv(s: State) {
    && (forall t :: TaskOk(s, t))
    && (forall m :: MutationOk(s, m))
    && (forall p :: PathOk(s, p))
    && FlagsOk(s) && PhaseOk(s)
  }

  ghost predicate Init(s: State) {
    && s.tasks == map[] && s.lock.None? && s.gate.None? && s.mutations == map[]
    && !s.syncing && !s.paused && s.engines == {} && !s.orphaned
    && s.phase.Booting? && s.tree == s.index && !s.stale
  }

  lemma InitHolds(s: State)
    requires Init(s)
    ensures Inv(s)
  {
  }

  // ---- Steps keep the invariant ----

  lemma TasksKeptByServer(s: State, step: ServerStep, t: TaskId)
    requires TaskOk(s, t) && ServerEnabled(s, step)
    ensures TaskOk(ServerApply(s, step), t)
  {
  }

  lemma FlagsKeptByServer(s: State, step: ServerStep)
    requires Inv(s) && ServerEnabled(s, step)
    ensures FlagsOk(ServerApply(s, step))
  {
    HoldersExist(s);
  }

  lemma PathsKeptByServer(s: State, step: ServerStep, p: Path)
    requires Inv(s) && ServerEnabled(s, step) && !step.ReconcileSweep?
    ensures PathOk(ServerApply(s, step), p)
  {
    assert PathOk(s, p);
    HoldersExist(s);
  }

  lemma PathsKeptBySweep(s: State, step: ServerStep, p: Path)
    requires Inv(s) && ServerEnabled(s, step) && step.ReconcileSweep?
    ensures PathOk(ServerApply(s, step), p)
  {
    SweepIsAlone(s);
    if !s.stale {
      QuietMeansEqual(s);
    }
  }

  lemma PhaseKeptByServer(s: State, step: ServerStep)
    requires Inv(s) && ServerEnabled(s, step)
    ensures PhaseOk(ServerApply(s, step))
  {
  }

  lemma ServerStepKeepsInv(s: State, step: ServerStep)
    requires Inv(s) && ServerEnabled(s, step)
    ensures Inv(ServerApply(s, step))
  {
    var s' := ServerApply(s, step);
    forall t ensures TaskOk(s', t) { TasksKeptByServer(s, step, t); }
    forall m ensures MutationOk(s', m) { assert MutationOk(s, m); }
    forall p ensures PathOk(s', p) {
      if step.ReconcileSweep? {
        PathsKeptBySweep(s, step, p);
      } else {
        PathsKeptByServer(s, step, p);
      }
    }
    FlagsKeptByServer(s, step);
    PhaseKeptByServer(s, step);
  }

  lemma QuietMeansEqual(s: State)
    requires Inv(s) && !s.stale && s.gate.None? && s.mutations == map[]
    ensures s.tree == s.index
  {
    forall p ensures (p in s.tree <==> p in s.index) && (p in s.tree ==> s.tree[p] == s.index[p]) {
      assert PathOk(s, p);
      assert At(s.tree, p) == At(s.index, p);
    }
  }

  /** The lock and the gate are held by tasks and mutations that exist and know it. */
  lemma HoldersExist(s: State)
    requires Inv(s)
    ensures s.lock.Some? ==> s.lock.value in s.tasks && HoldsLock(s.tasks[s.lock.value].pc)
    ensures s.gate.Some? && s.gate.value.Window? ==>
              && s.gate.value.task in s.tasks && HoldsGate(s.tasks[s.gate.value.task].pc)
              && s.lock == Some(s.gate.value.task)
    ensures s.gate.Some? && s.gate.value.Exclusive? ==> s.gate.value.mutation in s.mutations
  {
    if s.lock.Some? {
      assert TaskOk(s, s.lock.value);
    }
    if s.gate.Some? {
      match s.gate.value
      case Window(t) => assert TaskOk(s, t);
      case Exclusive(m) => assert MutationOk(s, m);
    }
  }

  lemma OwnLockKept(s: State, t: TaskId, step: TaskStep)
    requires TaskEnabled(s, t, step) && LockOk(s, t)
    ensures LockOk(TaskApply(s, t, step), t)
  {
  }

  lemma OwnGateKept(s: State, t: TaskId, step: TaskStep)
    requires TaskEnabled(s, t, step) && GateOk(s, t)
    ensures GateOk(TaskApply(s, t, step), t)
  {
  }

  lemma OwnHoldingKept(s: State, t: TaskId, step: TaskStep)
    requires TaskEnabled(s, t, step) && Holding(s, t)
    ensures Holding(TaskApply(s, t, step), t)
  {
    OwnLockKept(s, t, step);
    OwnGateKept(s, t, step);
  }

  lemma OwnEngineKept(s: State, t: TaskId, step: TaskStep)
    requires TaskEnabled(s, t, step) && EngineOk(s, t)
    ensures EngineOk(TaskApply(s, t, step), t)
  {
  }

  lemma OtherTasksKept(s: State, t: TaskId, step: TaskStep, u: TaskId)
    requires Inv(s) && TaskEnabled(s, t, step) && u != t
    ensures TaskOk(TaskApply(s, t, step), u)
  {
    assert TaskOk(s, t) && TaskOk(s, u);
  }

  /** A step by a task that does not hold the lock touches neither flag nor the lock's owner. */
  lemma FlagsKeptOutside(s: State, t: TaskId, step: TaskStep)
    requires Inv(s) && TaskEnabled(s, t, step) && s.lock != Some(t)
    ensures FlagsOk(TaskApply(s, t, step))
  {
    assert TaskOk(s, t);
    HoldersExist(s);
  }

  lemma SyncingKeptInside(s: State, t: TaskId, step: TaskStep)
    requires LockOk(s, t) && SyncingOk(s) && TaskEnabled(s, t, step) && s.lock == Some(t)
    ensures SyncingOk(TaskApply(s, t, step))
  {
  }

  lemma PausedKeptInside(s: State, t: TaskId, step: TaskStep)
    requires LockOk(s, t) && PausedOk(s) && TaskEnabled(s, t, step) && s.lock == Some(t)
    ensures PausedOk(TaskApply(s, t, step))
  {
  }

  lemma MutationsKeptByTask(s: State, t: TaskId, step: TaskStep, m: MutationId)
    requires Inv(s) && TaskEnabled(s, t, step)
    ensures MutationOk(TaskApply(s, t, step), m)
  {
    assert TaskOk(s, t) && MutationOk(s, m);
  }

  /** A step that leaves tree, index and staleness alone and neither starts nor ends an owed rebuild. */
  lemma PathsKeptElsewhere(s: State, t: TaskId, step: TaskStep, p: Path)
    requires Inv(s) && TaskEnabled(s, t, step) && !step.EngineReturn? && !step.Rebuild?
    ensures PathOk(TaskApply(s, t, step), p)
  {
    var s' := TaskApply(s, t, step);
    assert TaskOk(s, t) && PathOk(s, p);
    HoldersExist(s);
    assert s'.tree == s.tree && s'.index == s.index && s'.stale == s.stale && s'.mutations == s.mutations;
    assert OwesRebuild(s) ==> OwesRebuild(s');
  }

  lemma PathsKeptByReturn(s: State, t: TaskId, step: TaskStep, p: Path)
    requires Inv(s) && TaskEnabled(s, t, step) && step.EngineReturn?
    ensures PathOk(TaskApply(s, t, step), p)
  {
    assert TaskOk(s, t) && PathOk(s, p);
    QuietInWindow(s, t);
  }

  lemma PathsKeptByRebuild(s: State, t: TaskId, step: TaskStep, p: Path)
    requires Inv(s) && TaskEnabled(s, t, step) && step.Rebuild?
    ensures PathOk(TaskApply(s, t, step), p)
  {
  }

  /** Index and tree under a task's step: the rebuild a window owes is run before the gate opens. */
  lemma PathsKeptByTask(s: State, t: TaskId, step: TaskStep, p: Path)
    requires Inv(s) && TaskEnabled(s, t, step)
    ensures PathOk(TaskApply(s, t, step), p)
  {
    if step.EngineReturn? {
      PathsKeptByReturn(s, t, step, p);
    } else if step.Rebuild? {
      PathsKeptByRebuild(s, t, step, p);
    } else {
      PathsKeptElsewhere(s, t, step, p);
    }
  }

  lemma PhaseKeptByTask(s: State, t: TaskId, step: TaskStep)
    requires PhaseOk(s) && TaskEnabled(s, t, step)
    ensures PhaseOk(TaskApply(s, t, step))
  {
  }

  lemma TaskStepKeepsInv(s: State, t: TaskId, step: TaskStep)
    requires Inv(s) && TaskEnabled(s, t, step)
    ensures Inv(TaskApply(s, t, step))
  {
    var s' := TaskApply(s, t, step);
    forall u ensures TaskOk(s', u) {
      if u == t {
        assert TaskOk(s, t);
        OwnHoldingKept(s, t, step);
        OwnEngineKept(s, t, step);
      } else {
        OtherTasksKept(s, t, step, u);
      }
    }
    forall m ensures MutationOk(s', m) { MutationsKeptByTask(s, t, step, m); }
    forall p ensures PathOk(s', p) { PathsKeptByTask(s, t, step, p); }
    if s.lock == Some(t) {
      assert TaskOk(s, t);
      SyncingKeptInside(s, t, step);
      PausedKeptInside(s, t, step);
    } else {
      FlagsKeptOutside(s, t, step);
    }
    PhaseKeptByTask(s, t, step);
  }

  /** Touching mutation `m` changes what is in flight only by its own writes. */
  lemma InFlightMoves(s: State, s': State, m: MutationId, p: Path)
    requires forall n :: n != m && n in s.mutations ==> n in s'.mutations && s'.mutations[n] == s.mutations[n]
    ensures m in s'.mutations && p in s'.mutations[m].written ==> InFlight(s', p)
    ensures InFlight(s, p) && !(m in s.mutations && p in s.mutations[m].written) ==> InFlight(s', p)
  {
    if InFlight(s, p) && !(m in s.mutations && p in s.mutations[m].written) {
      var n :| n in s.mutations && p in s.mutations[n].written;
      assert n in s'.mutations && s'.mutations[n] == s.mutations[n];
    }
  }

  lemma PathsKeptByMutation(s: State, m: MutationId, step: MutationStep, p: Path)
    requires Inv(s) && MutationEnabled(s, m, step)
    ensures PathOk(MutationApply(s, m, step), p)
  {
    assert PathOk(s, p) && MutationOk(s, m);
    InFlightMoves(s, MutationApply(s, m, step), m, p);
  }

  lemma MutationStepKeepsInv(s: State, m: MutationId, step: MutationStep)
    requires Inv(s) && MutationEnabled(s, m, step)
    ensures Inv(MutationApply(s, m, step))
  {
    var s' := MutationApply(s, m, step);
    assert MutationOk(s, m);
    forall t ensures TaskOk(s', t) { assert TaskOk(s, t); }
    forall n ensures MutationOk(s', n) { assert MutationOk(s, n); }
    forall p ensures PathOk(s', p) { PathsKeptByMutation(s, m, step, p); }
  }

  /** While a task holds the gate no mutation is in progress. */
  lemma QuietInWindow(s: State, t: TaskId)
    requires Inv(s) && t in s.tasks && HoldsGate(s.tasks[t].pc)
    ensures s.mutations == map[] && s.gate == Some(Window(t))
  {
    assert TaskOk(s, t);
    forall m ensures m !in s.mutations { assert MutationOk(s, m); }
  }

  /** The startup reconcile sweep never overlaps a window, an engine call or a mutation. */
  lemma SweepIsAlone(s: State)
    requires Inv(s) && s.phase.Reconciling?
    ensures Alone(s)
  {
    HoldersExist(s);
    forall t ensures t !in s.engines { assert TaskOk(s, t); }
  }

  /** Nobody holds the lock or the gate, both flags are down, and no task, mutation or engine call is under way. */
  ghost predicate Alone(s: State) {
    && s.lock.None? && s.gate.None? && s.mutations == map[] && !s.syncing && !s.paused && s.engines == {}
    && forall t :: t in s.tasks ==> s.tasks[t].pc.Done?
  }

  lemma StepKeepsInv(s: State, step: Step)
    requires Inv(s) && Enabled(s, step)
    ensures Inv(Apply(s, step))
  {
    match step
    case Server(x) => ServerStepKeepsInv(s, x);
    case By(t, x) => TaskStepKeepsInv(s, t, x);
    case Mutate(m, x) => MutationStepKeepsInv(s, m, x);
  }

  // ---- Whole runs ----

  ghost predicate ValidRun(s: State, steps: seq<Step>)
    decreases |steps|
  {
    steps == [] || (Enabled(s, steps[0]) && ValidRun(Apply(s, steps[0]), steps[1..]))
  }

  ghost function Run(s: State, steps: seq<Step>): State
    requires ValidRun(s, steps)
    decreases |steps|
  {
    if steps == [] then s else Run(Apply(s, steps[0]), steps[1..])
  }

  lemma {:induction false} RunKeepsInv(s: State, steps: seq<Step>)
    requires Inv(s) && ValidRun(s, steps)
    ensures Inv(Run(s, steps))
    decreases |steps|
  {
    if steps != [] {
      StepKeepsInv(s, steps[0]);
      RunKeepsInv(Apply(s, steps[0]), steps[1..]);
    }
  }

  /** Task `t`'s window: it owns the lock, no mutation runs, and `syncing` is up exactly for a full sync. */
  ghost predicate WindowOf(s: State, t: TaskId) {
    && t in s.tasks && s.lock == Some(t) && s.mutations == map[]
    && (s.syncing <==> s.tasks[t].kind.FullSync?)
  }

  /**
   * In every interleaving: a paused watcher means one full sync holds the gate, has raised `syncing` and
   * owns the lock; `syncing` means a full sync owns the lock; a task that holds the gate owns the lock, admits
   * no mutation, and has raised `syncing` if and only if it is a full sync; and at most one engine call is
   * outstanding until an abort orphans one.
   */
  lemma MutualExclusion(s: State, steps: seq<Step>)
    requires Init(s) && ValidRun(s, steps)
    ensures var e := Run(s, steps);
            && (e.paused ==> e.syncing && e.lock.Some? && e.gate == Some(Window(e.lock.value)) && e.mutations == map[])
            && (e.syncing ==> e.lock.Some? && e.lock.value in e.tasks && e.tasks[e.lock.value].kind.FullSync?)
            && (forall t: TaskId :: e.gate == Some(Window(t)) ==> WindowOf(e, t))
            && (!e.orphaned ==> forall t, u :: t in e.engines && u in e.engines ==> t == u && e.lock == Some(t))
  {
    InitHolds(s);
    RunKeepsInv(s, steps);
    var e := Run(s, steps);
    if e.lock.Some? {
      assert TaskOk(e, e.lock.value);
    }
    if e.paused {
      QuietInWindow(e, e.lock.value);
    }
    forall t: TaskId | e.gate == Some(Window(t)) ensures WindowOf(e, t) {
      assert TaskOk(e, t);
      QuietInWindow(e, t);
    }
    forall t, u | !e.orphaned && t in e.engines && u in e.engines ensures t == u && e.lock == Some(t) {
      assert TaskOk(e, t) && TaskOk(e, u);
    }
  }

  /** Once no full sync is inside its window, however the windows ended, both flags are down and nothing is held. */
  lemma EveryExitLowersTheFlags(s: State, steps: seq<Step>)
    requires Init(s) && ValidRun(s, steps)
    requires forall t :: t in Run(s, steps).tasks && Run(s, steps).tasks[t].kind.FullSync? ==>
                           Run(s, steps).tasks[t].pc.WantLock? || Run(s, steps).tasks[t].pc.Done?
    ensures !Run(s, steps).syncing && !Run(s, steps).paused
  {
    InitHolds(s);
    RunKeepsInv(s, steps);
    if Run(s, steps).lock.Some? {
      assert TaskOk(Run(s, steps), Run(s, steps).lock.value);
    }
  }

  /**
   * Coherence: over any run without a stale index, index and working tree are equal whenever the gate is free
   * and no mutation is in flight.
   */
  lemma IndexMatchesTree(s: State, steps: seq<Step>)
    requires Init(s) && ValidRun(s, steps)
    requires !Run(s, steps).stale && Run(s, steps).gate.None? && Run(s, steps).mutations == map[]
    ensures Run(s, steps).index == Run(s, steps).tree
  {
    InitHolds(s);
    RunKeepsInv(s, steps);
    QuietMeansEqual(Run(s, steps));
  }

  /** An engine that did not panic after moving the tree, a rebuild that worked, or any other step of a task. */
  ghost predicate BenignTask(s: State, step: TaskStep) {
    match step
    case EngineReturn(o, tree') => !(o.Panicked? && tree' != s.tree)
    case Rebuild(ok, _, _) => ok
    case _ => true
  }

  /** A mutation that ends has indexed what it wrote. */
  ghost predicate BenignMutation(s: State, m: MutationId, step: MutationStep) {
    step.End? ==> m in s.mutations && s.mutations[m].written == {}
  }

  /** The step is not one of the three that may leave the index behind: all visible to whoever takes it. */
  ghost predicate Benign(s: State, step: Step) {
    match step
    case Server(_) => true
    case By(_, x) => BenignTask(s, x)
    case Mutate(m, x) => BenignMutation(s, m, x)
  }

  ghost predicate BenignRun(s: State, steps: seq<Step>)
    requires ValidRun(s, steps)
    decreases |steps|
  {
    steps == [] || (Benign(s, steps[0]) && BenignRun(Apply(s, steps[0]), steps[1..]))
  }

  lemma BenignSharedIsNotStale(s: State, t: TaskId, pc: Pc, step: TaskStep)
    requires !s.stale && BenignTask(s, step)
    ensures !SharedApply(s, t, pc, step).stale
  {
  }

  lemma BenignTaskIsNotStale(s: State, t: TaskId, step: TaskStep)
    requires !s.stale && TaskEnabled(s, t, step) && BenignTask(s, step)
    ensures !TaskApply(s, t, step).stale
  {
    BenignSharedIsNotStale(s, t, if step.OrphanReturn? then Done else s.tasks[t].pc, step);
  }

  lemma BenignMutationIsNotStale(s: State, m: MutationId, step: MutationStep)
    requires !s.stale && MutationEnabled(s, m, step) && BenignMutation(s, m, step)
    ensures !MutationApply(s, m, step).stale
  {
  }

  lemma ServerStepIsNotStale(s: State, step: ServerStep)
    requires !s.stale
    ensures !ServerApply(s, step).stale
  {
    match step
    case StartupSync(_) =>
    case StartupSkip =>
    case StartupFinished =>
    case StartupTimeout =>
    case ReconcileSweep(_, _) =>
    case ReconcileEnd =>
    case BeginDrain =>
    case Stop =>
    case Spawn(_, _) =>
  }

  lemma BenignStepIsNotStale(s: State, step: Step)
    requires !s.stale && Enabled(s, step) && Benign(s, step)
    ensures !Apply(s, step).stale
  {
    match step
    case Server(x) => ServerStepIsNotStale(s, x);
    case By(t, x) => BenignTaskIsNotStale(s, t, x);
    case Mutate(m, x) => BenignMutationIsNotStale(s, m, x);
  }

  lemma {:induction false} BenignRunsAreNotStale(s: State, steps: seq<Step>)
    requires !s.stale && ValidRun(s, steps) && BenignRun(s, steps)
    ensures !Run(s, steps).stale
    decreases |steps|
  {
    if steps != [] {
      BenignStepIsNotStale(s, steps[0]);
      BenignRunsAreNotStale(Apply(s, steps[0]), steps[1..]);
    }
  }

  /** Coherence in terms of the steps alone: no panic that moved the tree, no failed rebuild, no unindexed write. */
  lemma BenignRunsKeepTheIndex(s: State, steps: seq<Step>)
    requires Init(s) && ValidRun(s, steps) && BenignRun(s, steps)
    requires Run(s, steps).gate.None? && Run(s, steps).mutations == map[]
    ensures Run(s, steps).index == Run(s, steps).tree
  {
    BenignRunsAreNotStale(s, steps);
    IndexMatchesTree(s, steps);
  }

  /** The rest of a full sync's window once its engine has returned: rebuild or not, unpause, open the gate. */
  function AfterWindow(s: State, t: TaskId, o: Outcome, tree': Tree, rebuild: TaskStep): State
    requires TaskAt(s, t, Some(FullSync), InEngine) && TaskEnabled(s, t, EngineReturn(o, tree'))
    requires TaskEnabled(TaskApply(s, t, EngineReturn(o, tree')), t, rebuild)
    requires rebuild.SkipRebuild? || (rebuild.Rebuild? && rebuild.ok)
  {
    var s1 := TaskApply(TaskApply(s, t, EngineReturn(o, tree')), t, rebuild);
    TaskApply(TaskApply(s1, t, Unpause), t, OpenGate)
  }

  /**
   * Exactly which windows keep a matching index, rebuilds succeeding: from index equal to tree, a window leaves
   * them equal if and only if its engine did not panic after moving the tree.
   */
  lemma WindowCoherence(s: State, t: TaskId, o: Outcome, tree': Tree, rebuild: TaskStep)
    requires Inv(s) && s.tree == s.index
    requires TaskAt(s, t, Some(FullSync), InEngine) && TaskEnabled(s, t, EngineReturn(o, tree'))
    requires TaskEnabled(TaskApply(s, t, EngineReturn(o, tree')), t, rebuild)
    requires rebuild.SkipRebuild? || (rebuild.Rebuild? && rebuild.ok)
    ensures var e := AfterWindow(s, t, o, tree', rebuild);
            e.gate.None? && e.mutations == map[] && (e.index == e.tree <==> !(o.Panicked? && tree' != s.tree))
  {
    QuietInWindow(s, t);
  }

  /** In every run the startup sweep is alone: no other task's window is open while it renames files. */
  lemma ReconcileNeverOverlapsAWindow(s: State, steps: seq<Step>)
    requires Init(s) && ValidRun(s, steps) && Run(s, steps).phase.Reconciling?
    ensures Alone(Run(s, steps))
  {
    InitHolds(s);
    RunKeepsInv(s, steps);
    SweepIsAlone(Run(s, steps));
  }

  /** The step that carries a task on towards its end from each point, an engine call ending without a change. */
  function ExitStep(s: State, kind: Kind, pc: Pc): TaskStep {
    match pc
    case WantLock => AcquireLock
    case HasLock => RaiseSyncing
    case WantGate => AcquireGate
    case HasGate => if kind.FullSync? then PauseWatcher else CallEngine
    case WatcherPaused => CallEngine
    case InEngine => EngineReturn(Finished(false), s.tree)
    case Returned(o) => if NeedsRebuild(o) then Rebuild(true, s.tree, s.tree) else SkipRebuild
    case Closing => Unpause
    case Unpaused => OpenGate
    case GateOpen => if kind.FullSync? then LowerSyncing else ReleaseLock
    case _ => ReleaseLock
  }

  function Rank(pc: Pc): nat {
    match pc
    case WantLock => 11 case HasLock => 10 case WantGate => 9 case HasGate => 8 case WatcherPaused => 7
    case InEngine => 6 case Returned(_) => 5 case Closing => 4 case Unpaused => 3 case GateOpen => 2
    case FlagDown => 1 case Done => 0
  }

  /** A step moves its own task strictly forward and no other task at all. */
  lemma TasksOnlyAdvance(s: State, t: TaskId, step: TaskStep, u: TaskId)
    requires TaskEnabled(s, t, step) && u in s.tasks
    ensures u in TaskApply(s, t, step).tasks && TaskApply(s, t, step).tasks[u].kind == s.tasks[u].kind
    ensures u != t || step.OrphanReturn? ==> TaskApply(s, t, step).tasks[u] == s.tasks[u]
    ensures u == t && !step.OrphanReturn? ==> Rank(TaskApply(s, t, step).tasks[t].pc) < Rank(s.tasks[t].pc)
  {
  }

  lemma Prepend(s: State, step: Step, steps: seq<Step>)
    requires Enabled(s, step) && ValidRun(Apply(s, step), steps)
    ensures ValidRun(s, [step] + steps) && Run(s, [step] + steps) == Run(Apply(s, step), steps)
  {
    assert ([step] + steps)[1..] == steps;
  }

  /** Nothing is in the way of a task: it can have the lock and the gate if it still needs them. */
  ghost predicate Unblocked(s: State, t: TaskId) {
    && t in s.tasks && Reaches(s.tasks[t].kind, s.tasks[t].pc)
    && (s.tasks[t].pc.WantLock? ==> s.lock.None?)
    && (Rank(s.tasks[t].pc) >= 9 ==> s.gate.None? && s.mutations == map[])
  }

  predicate Owes(pc: Pc) {
    pc.Returned? && NeedsRebuild(pc.outcome)
  }

  lemma ExitStepEnabled(s: State, t: TaskId)
    requires Unblocked(s, t) && !s.tasks[t].pc.Done?
    ensures TaskEnabled(s, t, ExitStep(s, s.tasks[t].kind, s.tasks[t].pc))
  {
    match s.tasks[t].pc
    case WantLock =>
    case HasLock =>
    case WantGate =>
    case HasGate =>
    case WatcherPaused =>
    case InEngine =>
    case Returned(_) =>
    case Closing =>
    case Unpaused =>
    case GateOpen =>
    case FlagDown =>
  }

  lemma ExitStepWorks(s: State, t: TaskId, step: TaskStep)
    requires Unblocked(s, t) && TaskEnabled(s, t, step) && step == ExitStep(s, s.tasks[t].kind, s.tasks[t].pc)
    ensures Unblocked(TaskApply(s, t, step), t)
  {
    match s.tasks[t].pc
    case WantLock =>
    case HasLock =>
    case WantGate =>
    case HasGate =>
    case WatcherPaused =>
    case InEngine =>
    case Returned(_) =>
    case Closing =>
    case Unpaused =>
    case GateOpen =>
    case FlagDown =>
  }

  lemma ExitStepKeeps(s: State, t: TaskId, step: TaskStep)
    requires t in s.tasks && TaskEnabled(s, t, step) && step == ExitStep(s, s.tasks[t].kind, s.tasks[t].pc)
    ensures TaskApply(s, t, step).mutations == s.mutations && TaskApply(s, t, step).phase == s.phase
    ensures !Owes(s.tasks[t].pc) ==> !step.Rebuild? && !Owes(TaskApply(s, t, step).tasks[t].pc)
  {
    match s.tasks[t].pc
    case WantLock =>
    case HasLock =>
    case WantGate =>
    case HasGate =>
    case WatcherPaused =>
    case InEngine =>
    case Returned(_) =>
    case Closing =>
    case Unpaused =>
    case GateOpen =>
    case FlagDown =>
  }

  /** The steps are `t`'s own and move no other task; they rebuild only if that was owed at the start. */
  ghost predicate Solo(s: State, t: TaskId, steps: seq<Step>)
    requires t in s.tasks && ValidRun(s, steps)
  {
    && (forall i :: 0 <= i < |steps| ==> steps[i].By? && steps[i].task == t)
    && (!Owes(s.tasks[t].pc) ==> forall i :: 0 <= i < |steps| ==> steps[i].By? && !steps[i].step.Rebuild?)
    && (forall u :: u != t && u in s.tasks ==> u in Run(s, steps).tasks && Run(s, steps).tasks[u] == s.tasks[u])
    && Run(s, steps).tasks.Keys == s.tasks.Keys
    && Run(s, steps).mutations == s.mutations && Run(s, steps).phase == s.phase
  }

  /** A task with nothing in its way, a full sync past the gate for one, reaches `Done` by its own steps alone. */
  lemma {:induction false} WindowsAlwaysClose(s: State, t: TaskId) returns (steps: seq<Step>)
    requires Unblocked(s, t)
    ensures ValidRun(s, steps) && TaskAt(Run(s, steps), t, None, Done) && Solo(s, t, steps)
    decreases Rank(s.tasks[t].pc)
  {
    if s.tasks[t].pc.Done? {
      steps := [];
    } else {
      var step := ExitStep(s, s.tasks[t].kind, s.tasks[t].pc);
      ExitStepEnabled(s, t);
      ExitStepWorks(s, t, step);
      ExitStepKeeps(s, t, step);
      var s' := TaskApply(s, t, step);
      forall u | u in s.tasks ensures u in s'.tasks && (u != t ==> s'.tasks[u] == s.tasks[u]) {
        TasksOnlyAdvance(s, t, step, u);
      }
      TasksOnlyAdvance(s, t, step, t);
      var rest := WindowsAlwaysClose(s', t);
      Prepend(s, By(t, step), rest);
      steps := [By(t, step)] + rest;
    }
  }

  lemma {:induction false} RunConcat(s: State, a: seq<Step>, b: seq<Step>)
    requires ValidRun(s, a) && ValidRun(Run(s, a), b)
    ensures ValidRun(s, a + b) && Run(s, a + b) == Run(Run(s, a), b)
    decreases |a|
  {
    if a == [] {
      assert a + b == b;
    } else {
      RunConcat(Apply(s, a[0]), a[1..], b);
      assert (a + b)[1..] == a[1..] + b;
    }
  }

  /** The startup sync reaches its engine call. */
  lemma StartupReachesTheEngine(s: State, t: TaskId) returns (steps: seq<Step>)
    requires Init(s)
    ensures ValidRun(s, steps)
    ensures var e := Run(s, steps); TaskAt(e, t, Some(FullSync), InEngine) && e.tree == s.tree && e.index == s.index
    ensures Run(s, steps).phase == Waiting(t)
    ensures forall i :: 1 <= i < |steps| ==> steps[i].By? && !steps[i].step.Rebuild?
    ensures steps != [] && steps[0] == Server(StartupSync(t))
  {
    var s0 := ServerApply(s, StartupSync(t));
    var s1 := TaskApply(s0, t, AcquireLock);
    var s2 := TaskApply(s1, t, RaiseSyncing);
    var s3 := TaskApply(s2, t, AcquireGate);
    var s4 := TaskApply(s3, t, PauseWatcher);
    Prepend(s4, By(t, CallEngine), []);
    steps := [By(t, CallEngine)] + [];
    Prepend(s3, By(t, PauseWatcher), steps);
    steps := [By(t, PauseWatcher)] + steps;
    Prepend(s2, By(t, AcquireGate), steps);
    steps := [By(t, AcquireGate)] + steps;
    Prepend(s1, By(t, RaiseSyncing), steps);
    steps := [By(t, RaiseSyncing)] + steps;
    Prepend(s0, By(t, AcquireLock), steps);
    steps := [By(t, AcquireLock)] + steps;
    Prepend(s, Server(StartupSync(t)), steps);
    steps := [Server(StartupSync(t))] + steps;
  }

  lemma PanicEndsTheWindow(s: State, t: TaskId, moved: Tree) returns (steps: seq<Step>)
    requires TaskAt(s, t, Some(FullSync), InEngine) && moved != s.index
    ensures ValidRun(s, steps) && Run(s, steps).gate.None? && Run(s, steps).index != Run(s, steps).tree
  {
    var s1 := TaskApply(s, t, EngineReturn(Panicked, moved));
    var s2 := TaskApply(s1, t, SkipRebuild);
    var s3 := TaskApply(s2, t, Unpause);
    Prepend(s3, By(t, OpenGate), []);
    steps := [By(t, OpenGate)] + [];
    Prepend(s2, By(t, Unpause), steps);
    steps := [By(t, Unpause)] + steps;
    Prepend(s1, By(t, SkipRebuild), steps);
    steps := [By(t, SkipRebuild)] + steps;
    Prepend(s, By(t, EngineReturn(Panicked, moved)), steps);
    steps := [By(t, EngineReturn(Panicked, moved))] + steps;
  }

  /** From every initial state: a startup sync that panics after moving the tree leaves the index behind it. */
  lemma PanicLeavesTheIndexBehind(s: State, t: TaskId, moved: Tree) returns (steps: seq<Step>)
    requires Init(s) && moved != s.tree
    ensures ValidRun(s, steps) && Run(s, steps).gate.None? && Run(s, steps).index != Run(s, steps).tree
  {
    var up := StartupReachesTheEngine(s, t);
    var down := PanicEndsTheWindow(Run(s, up), t, moved);
    RunConcat(s, up, down);
    steps := up + down;
  }
}

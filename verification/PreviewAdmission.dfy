/** Concurrent preview requests: which of them start a capture, and how far apart captures of one page are. */
module PreviewAdmission {
  import opened Common
  import opened PreviewStore

  const POSITIVE_TTL: int := 7 * 24 * 60 * 60
  const NEGATIVE_TTL: int := 5 * 60
  const MAX_RUNNING: nat := 2

  type JobId = nat

  datatype Runtime = Runtime(
    rows: Rows,
    running: set<Key>,
    jobs: map<JobId, Key>,    // spawned completion jobs and the key each one captures
    errorUntil: int,
    clock: int,
    floor: map<Key, int>)     // per cached key, the latest time a recorded attempt forbids capturing before

  datatype Config = Config(jsonLen: Response -> nat, maxEntries: nat, maxBytes: nat)

  datatype Step =
    | Request(key: Key, now: int, later: int, lookupOk: bool, job: JobId)
    | Complete(job: JobId, result: Option<Captured>, now: int, later: int, saveOk: bool, rows': Rows)

  /** How long a capture stays fresh. */
  function Ttl(row: Row): int {
    if row.response.Ready? && row.response.hasImage then POSITIVE_TTL else NEGATIVE_TTL
  }

  /** Whether a request's cache entry calls for a capture at `now`. */
  predicate ShouldCapture(entry: Option<Row>, now: int) {
    entry.None? ||
    var row := entry.value;
    now - row.attempted >= NEGATIVE_TTL && (row.captured.None? || now - row.captured.value >= Ttl(row))
  }

  function Max(a: int, b: int): int {
    if a < b then b else a
  }

  /** The earliest time at which a cached row allows a capture. */
  function AllowedFrom(row: Row): int {
    var retry := row.attempted + NEGATIVE_TTL;
    if row.captured.None? then retry
    else Max(retry, row.captured.value + Ttl(row))
  }

  lemma ShouldCaptureMeans(row: Row, now: int)
    ensures ShouldCapture(Some(row), now) <==> now >= AllowedFrom(row)
  {
  }

  predicate Admits(r: Runtime, s: Step) {
    && s.Request? && s.now >= r.errorUntil && s.lookupOk
    && ShouldCapture(if s.key in r.rows then Some(r.rows[s.key]) else None, s.later)
    && s.key !in r.running && |r.running| < MAX_RUNNING
  }

  /**
   * When a request is admitted, over the row's own fields and in seconds. With the cache answering, the key idle and
   * fewer than two captures running: if there is no row, or five minutes have passed since the last attempt and the
   * row has no capture, or one with an image seven days old, or one without an image five minutes old.
   */
  lemma AdmitsExactly(r: Runtime, s: Step)
    requires s.Request?
    ensures Admits(r, s) <==>
            && s.now >= r.errorUntil && s.lookupOk && s.key !in r.running && |r.running| <= 1
            && (s.key !in r.rows
                || (&& s.later >= r.rows[s.key].attempted + 300
                    && match r.rows[s.key].captured
                       case None => true
                       case Some(at) =>
                         match r.rows[s.key].response
                         case Ready(_, _, _, _, true) => s.later >= at + 604800
                         case _ => s.later >= at + 300))
  {
  }

  /** The step is a completion whose attempt reaches the table. */
  ghost predicate Records(cfg: Config, r: Runtime, s: Step, key: Key) {
    && s.Complete? && s.saveOk && s.job in r.jobs && r.jobs[s.job] == key
    && var row := NewRow(cfg.jsonLen, Usable(s.result), s.now);
    !KindOfSave(r.rows, key, Usable(s.result), row.bytes, cfg.maxBytes).TooLarge?
  }

  /** The recorded attempt stored a capture with an image. */
  ghost predicate RecordsImage(cfg: Config, r: Runtime, s: Step, key: Key) {
    && Records(cfg, r, s, key)
    && Usable(s.result).Some? && UsableImage(Usable(s.result).value.screenshot).Some?
  }

  ghost predicate Enabled(cfg: Config, r: Runtime, s: Step) {
    match s
    case Request(_, now, later, _, job) => r.clock <= now <= later && job !in r.jobs
    case Complete(job, result, now, later, saveOk, rows') =>
      && job in r.jobs && r.clock <= now <= later
      && if saveOk then Saves(r.rows, rows', cfg.jsonLen, r.jobs[job], result, now, cfg.maxEntries, cfg.maxBytes)
         else rows' == r.rows
  }

  /** How long a recorded attempt holds captures of its key off. */
  ghost function HoldOff(cfg: Config, r: Runtime, s: Step, key: Key): int {
    if RecordsImage(cfg, r, s, key) then POSITIVE_TTL else NEGATIVE_TTL
  }

  ghost function NewFloor(cfg: Config, r: Runtime, s: Step): map<Key, int>
    requires s.Complete? && Enabled(cfg, r, s)
  {
    var key := r.jobs[s.job];
    map k | k in s.rows' ::
      if k == key && Records(cfg, r, s, key) then
        if k in r.floor then Max(r.floor[k], s.now + HoldOff(cfg, r, s, key)) else s.now + HoldOff(cfg, r, s, key)
      else if k in r.floor then r.floor[k] else s.now
  }

  ghost function Apply(cfg: Config, r: Runtime, s: Step): Runtime
    requires Enabled(cfg, r, s)
  {
    match s
    case Request(key, now, later, _, job) =>
      if Admits(r, s) then r.(running := r.running + {key}, jobs := r.jobs[job := key], clock := later)
      else r.(clock := if now < r.errorUntil then now else later)
    case Complete(job, _, now, later, saveOk, rows') =>
      r.(rows := rows',
         running := r.running - {r.jobs[job]},
         jobs := r.jobs - {job},
         errorUntil := if saveOk then r.errorUntil else later + NEGATIVE_TTL,
         clock := later,
         floor := NewFloor(cfg, r, s))
  }

  // ---- The invariant ----

  /** A cached key may be captured no sooner than its floor; one being captured has already reached it. */
  ghost predicate KeyOk(r: Runtime, k: Key) {
    && (k in r.floor <==> k in r.rows)
    && (k in r.rows ==> r.floor[k] <= AllowedFrom(r.rows[k]))
    && (k in r.rows && k in r.running ==> r.floor[k] <= r.clock)
  }

  /** Every job captures a running key, no two the same one, and as many run as are admitted. */
  ghost predicate JobsMatch(jobs: map<JobId, Key>, running: set<Key>) {
    && (forall j :: j in jobs ==> jobs[j] in running)
    && (forall i, j :: i in jobs && j in jobs && i != j ==> jobs[i] != jobs[j])
    && |jobs| == |running| <= MAX_RUNNING
  }

  ghost predicate JobsOk(r: Runtime) {
    JobsMatch(r.jobs, r.running)
  }

  ghost predicate Inv(r: Runtime) {
    JobsOk(r) && forall k :: KeyOk(r, k)
  }

  lemma JobAdded(jobs: map<JobId, Key>, running: set<Key>, job: JobId, key: Key)
    requires JobsMatch(jobs, running) && job !in jobs && key !in running && |running| < MAX_RUNNING
    ensures JobsMatch(jobs[job := key], running + {key})
  {
  }

  lemma JobRemoved(jobs: map<JobId, Key>, running: set<Key>, job: JobId)
    requires JobsMatch(jobs, running) && job in jobs
    ensures JobsMatch(jobs - {job}, running - {jobs[job]})
  {
    assert (jobs - {job})[job := jobs[job]] == jobs;
  }

  lemma JobsKept(cfg: Config, r: Runtime, s: Step)
    requires JobsOk(r) && Enabled(cfg, r, s)
    ensures JobsOk(Apply(cfg, r, s))
  {
    if s.Complete? {
      JobRemoved(r.jobs, r.running, s.job);
    } else if Admits(r, s) {
      JobAdded(r.jobs, r.running, s.job, s.key);
    }
  }

  lemma RequestKeepsKeys(cfg: Config, r: Runtime, s: Step, k: Key)
    requires Enabled(cfg, r, s) && s.Request? && KeyOk(r, k)
    ensures KeyOk(Apply(cfg, r, s), k)
  {
    if k in r.rows && k == s.key {
      ShouldCaptureMeans(r.rows[k], s.later);
    }
  }

  /** Rows other than the saved one survive a completion unchanged or disappear. */
  lemma CompleteRows(cfg: Config, r: Runtime, s: Step, k: Key)
    requires Enabled(cfg, r, s) && s.Complete? && k in s.rows'
    ensures k != r.jobs[s.job] || !Records(cfg, r, s, k) ==> k in r.rows && s.rows'[k] == r.rows[k]
    ensures k == r.jobs[s.job] && Records(cfg, r, s, k) ==>
              s.now + HoldOff(cfg, r, s, k) <= AllowedFrom(s.rows'[k])
  {
    if s.saveOk {
      SaveLosesNothingElse(r.rows, s.rows', cfg.jsonLen, r.jobs[s.job], s.result, s.now, cfg.maxEntries, cfg.maxBytes,
                           k);
    }
  }

  lemma CompleteKeepsKeys(cfg: Config, r: Runtime, s: Step, k: Key)
    requires Enabled(cfg, r, s) && s.Complete? && JobsOk(r) && KeyOk(r, k)
    ensures KeyOk(Apply(cfg, r, s), k)
  {
    if k in s.rows' {
      CompleteRows(cfg, r, s, k);
    }
  }

  lemma StepKeepsInv(cfg: Config, r: Runtime, s: Step)
    requires Inv(r) && Enabled(cfg, r, s)
    ensures Inv(Apply(cfg, r, s))
  {
    JobsKept(cfg, r, s);
    forall k ensures KeyOk(Apply(cfg, r, s), k) {
      assert KeyOk(r, k);
      if s.Request? {
        RequestKeepsKeys(cfg, r, s, k);
      } else {
        CompleteKeepsKeys(cfg, r, s, k);
      }
    }
  }

  // ---- Whole runs ----

  /** A start-up state: nothing running, whatever an earlier process left in the table. */
  ghost predicate Init(r: Runtime) {
    && r.running == {} && r.jobs == map[] && r.floor.Keys == r.rows.Keys
    && forall k :: k in r.rows ==> r.floor[k] == AllowedFrom(r.rows[k])
  }

  /** `states[i + 1]` follows from `states[i]` by `steps[i]`. */
  ghost predicate IsRun(cfg: Config, states: seq<Runtime>, steps: seq<Step>) {
    && |states| == |steps| + 1 && Init(states[0])
    && forall i :: 0 <= i < |steps| ==>
         Enabled(cfg, states[i], steps[i]) && states[i + 1] == Apply(cfg, states[i], steps[i])
  }

  lemma {:induction false} RunKeepsInv(cfg: Config, states: seq<Runtime>, steps: seq<Step>, i: nat)
    requires IsRun(cfg, states, steps) && i < |states|
    ensures Inv(states[i])
  {
    if i == 0 {
      forall k ensures KeyOk(states[0], k) {
      }
    } else {
      RunKeepsInv(cfg, states, steps, i - 1);
      StepKeepsInv(cfg, states[i - 1], steps[i - 1]);
    }
  }

  /** At every moment at most two captures are outstanding, and no two of them are of the same key. */
  lemma AtMostTwoCaptures(cfg: Config, states: seq<Runtime>, steps: seq<Step>, i: nat)
    requires IsRun(cfg, states, steps) && i < |states|
    ensures |states[i].jobs| <= 2
    ensures forall a, b :: a in states[i].jobs && b in states[i].jobs && states[i].jobs[a] == states[i].jobs[b] ==>
              a == b
  {
    RunKeepsInv(cfg, states, steps, i);
  }

  /** While a key stays cached its floor never drops. */
  lemma {:induction false} FloorNeverDrops(cfg: Config, states: seq<Runtime>, steps: seq<Step>, i: nat, j: nat,
                                           key: Key)
    requires IsRun(cfg, states, steps) && i <= j < |states|
    requires forall m :: i <= m <= j ==> key in states[m].rows
    ensures key in states[i].floor && key in states[j].floor && states[i].floor[key] <= states[j].floor[key]
    decreases j
  {
    RunKeepsInv(cfg, states, steps, i);
    RunKeepsInv(cfg, states, steps, j);
    assert KeyOk(states[i], key) && KeyOk(states[j], key);
    if i < j {
      FloorNeverDrops(cfg, states, steps, i, j - 1, key);
      assert states[j] == Apply(cfg, states[j - 1], steps[j - 1]);
    }
  }

  /**
   * Spacing over a whole run: once an attempt for a key is recorded, and for as long as its row stays
   * cached, no capture of it is admitted within five minutes of the attempt, nor within seven days of an
   * attempt that stored an image, however many other captures, failures and evictions happen in between.
   */
  lemma CapturesAreSpaced(cfg: Config, states: seq<Runtime>, steps: seq<Step>, i: nat, j: nat, key: Key)
    requires IsRun(cfg, states, steps) && i < j < |steps|
    requires Records(cfg, states[i], steps[i], key)
    requires steps[j].Request? && steps[j].key == key && Admits(states[j], steps[j])
    requires forall m :: i < m <= j ==> key in states[m].rows
    ensures steps[j].later >= steps[i].now + NEGATIVE_TTL
    ensures RecordsImage(cfg, states[i], steps[i], key) ==> steps[j].later >= steps[i].now + POSITIVE_TTL
  {
    var next := states[i + 1];
    assert next == Apply(cfg, states[i], steps[i]);
    assert key in next.rows;
    assert next.floor[key] >= steps[i].now + HoldOff(cfg, states[i], steps[i], key);
    FloorNeverDrops(cfg, states, steps, i + 1, j, key);
    RunKeepsInv(cfg, states, steps, j);
    assert KeyOk(states[j], key);
    ShouldCaptureMeans(states[j].rows[key], steps[j].later);
  }

  /**
   * Exactly when a finished attempt starts no back-off: with the cache answering and the old row, if any, due,
   * a request that follows within five minutes is admitted if and only if the save worked without recording.
   */
  lemma BackOffExactly(cfg: Config, r: Runtime, s: Step, q: Step)
    requires Inv(r) && Enabled(cfg, r, s) && s.Complete?
    requires q.Request? && q.key == r.jobs[s.job] && q.lookupOk && Enabled(cfg, Apply(cfg, r, s), q)
    requires q.later < s.now + NEGATIVE_TTL && q.now >= Apply(cfg, r, s).errorUntil
    requires q.key in r.rows ==> ShouldCapture(Some(r.rows[q.key]), q.later)
    ensures Admits(Apply(cfg, r, s), q) <==> s.saveOk && !Records(cfg, r, s, q.key)
  {
    JobRemoved(r.jobs, r.running, s.job);
  }

  /** An input of that kind, under a budget of no bytes: the attempt ends, and the next request is admitted at once. */
  lemma OversizedRowStartsNoBackOff() returns (cfg: Config, r: Runtime, s: Step, q: Step)
    ensures Inv(r) && s.Complete? && s.saveOk && Enabled(cfg, r, s)
    ensures q.Request? && q.key == r.jobs[s.job] && q.now == s.now && Enabled(cfg, Apply(cfg, r, s), q)
    ensures Admits(Apply(cfg, r, s), q)
  {
    cfg := Config(_ => 1, 1, 0);
    r := Runtime(map[], {5}, map[0 := 5], 0, 0, map[]);
    s := Complete(0, None, 1, 1, true, map[]);
    q := Request(5, 1, 1, true, 1);
    assert Saves(r.rows, s.rows', cfg.jsonLen, 5, None, 1, 1, 0);
    BackOffExactly(cfg, r, s, q);
  }

  /** The code's own limits. */
  ghost predicate AtTheLimits(cfg: Config) {
    JsonLaw(cfg.jsonLen) && cfg.maxEntries == MAX_ENTRIES && cfg.maxBytes == MAX_PAYLOAD_BYTES
  }

  /** At the code's limits every successful save records its attempt. */
  lemma EverySaveRecords(cfg: Config, r: Runtime, s: Step)
    requires AtTheLimits(cfg) && s.Complete? && s.job in r.jobs
    ensures Records(cfg, r, s, r.jobs[s.job]) <==> s.saveOk
  {
    NothingIsTooLarge(r.rows, cfg.jsonLen, r.jobs[s.job], s.result, s.now);
  }

  /** So spacing holds after every successful save. */
  lemma CapturesAreSpacedAtTheLimits(cfg: Config, states: seq<Runtime>, steps: seq<Step>, i: nat, j: nat, key: Key)
    requires AtTheLimits(cfg) && IsRun(cfg, states, steps) && i < j < |steps|
    requires steps[i].Complete? && steps[i].saveOk && states[i].jobs[steps[i].job] == key
    requires steps[j].Request? && steps[j].key == key && Admits(states[j], steps[j])
    requires forall m :: i < m <= j ==> key in states[m].rows
    ensures steps[j].later >= steps[i].now + NEGATIVE_TTL
    ensures RecordsImage(cfg, states[i], steps[i], key) ==> steps[j].later >= steps[i].now + POSITIVE_TTL
  {
    EverySaveRecords(cfg, states[i], steps[i]);
    CapturesAreSpaced(cfg, states, steps, i, j, key);
  }

  lemma {:induction false} CooldownNeverShrinks(cfg: Config, states: seq<Runtime>, steps: seq<Step>, i: nat, j: nat)
    requires IsRun(cfg, states, steps) && i < j < |states| && steps[i].Complete? && !steps[i].saveOk
    ensures states[j].clock >= steps[i].later && states[j].errorUntil >= steps[i].later + NEGATIVE_TTL
    decreases j
  {
    assert states[j] == Apply(cfg, states[j - 1], steps[j - 1]);
    if i < j - 1 {
      CooldownNeverShrinks(cfg, states, steps, i, j - 1);
    }
  }

  /** After a save that failed, no capture of any key is admitted for five minutes, whatever else happens. */
  lemma FailedSaveCoolsEveryKey(cfg: Config, states: seq<Runtime>, steps: seq<Step>, i: nat, j: nat)
    requires IsRun(cfg, states, steps) && i < j < |steps| && steps[i].Complete? && !steps[i].saveOk
    requires steps[j].Request? && Admits(states[j], steps[j])
    ensures steps[j].now >= steps[i].later + NEGATIVE_TTL
  {
    CooldownNeverShrinks(cfg, states, steps, i, j);
  }
}

/**
 * The dispatch engine of Jobs\Runner, pure part: the collaborators it
 * consults (IPC, process tools, clock, task runner), the engine's
 * observable state, and one pass of `catcher()` as a function of the state.
 */
module JobsCatcher {
  import opened Wrappers
  import opened JobTable

  /** One `JobEvent` plus one `JobStatusEvent` emission, with its phase. */
  datatype Event = Start(uid: Uid) | Stop(uid: Uid)

  /** What the runner asks of the operating system and of the IPC layer, in order. */
  datatype Action =
    | Renice(pid: int, niceness: int)   // ProcessTools::setNiceness
    | Term(pid: int, grace: int)        // ProcessTools::term, with the lagger timeout
    | Kill(pid: int)                    // ProcessTools::kill
    | CloseWriter(uid: Uid)             // Ipc::close(uid, WRITER)
    | CloseReader(uid: Uid)             // Ipc::close(uid, READER)
    | Hang(uid: Uid)                    // Ipc::hang

  /** What a task run yields: `$result->success`, `->result`, `->wid`. */
  datatype TaskResult = TaskResult(success: bool, result: string, wid: Option<string>)

  /** What reading and unserializing an exited worker's channel yields. */
  datatype Transfer = Received(output: TaskResult) | TransferFailed(message: string)

  /** What `pcntl_fork` answers in the parent. */
  datatype ForkOutcome = Forked(pid: int) | ForkFailed

  /**
   * The collaborators, as oracles. `isRunning(pid, k)` tells whether the
   * worker is alive at the poll made after `k` clock readings; `clock(k)` is
   * the `k`-th reading of `microtime(true)`, in integer ticks.
   */
  datatype Env = Env(
    selfPid: int,
    runTask: Job -> TaskResult,
    ipcInit: Uid -> Option<string>,
    fork: Uid -> ForkOutcome,
    isRunning: (int, nat) -> bool,
    transfer: Uid -> Transfer,
    clock: nat -> int)

  /** Time moves forward between two readings. */
  ghost predicate ClockAdvances(env: Env) {
    forall k: nat :: env.clock(k) < env.clock(k + 1)
  }

  /** The validated configuration: `multithread`, `fork-limit`, `child-max-runtime`, `child-lagger-timeout`, and the tasks table. */
  datatype Config = Config(
    multithread: bool,
    maxChilds: nat,
    maxRuntime: int,
    laggerTimeout: int,
    tasks: set<string>)

  const KilledMessage := "Job killed due to max runtime reached"
  const ForkFailedMessage := "Unable to fork job, aborting"
  const StopMessage := "Stop signal received, aborting queued jobs"
  const KillMessage := "Kill signal received, aborting queued jobs"

  /**
   * The parent-side contract of `forker()`: the message of the exception it
   * throws, if any. IPC initialisation fails with its own message; a fork
   * that answers -1 fails with a fixed message.
   */
  function ForkFailure(env: Env, uid: Uid): (r: Option<string>)
    ensures env.ipcInit(uid).Some? ==> r == env.ipcInit(uid)
    ensures env.ipcInit(uid).None? ==> (r.Some? <==> env.fork(uid).ForkFailed?)
    ensures r.Some? && env.ipcInit(uid).None? ==> r.value == ForkFailedMessage
  {
    match env.ipcInit(uid)
    case Some(message) => Some(message)
    case None => if env.fork(uid).ForkFailed? then Some(ForkFailedMessage) else None
  }

  /**
   * The IPC and process calls the parent side of `forker()` makes: a hang
   * of the channel when IPC initialisation fails, nothing when the fork
   * fails, and the niceness of the child, if the job has one, when it
   * succeeds.
   */
  function ForkActions(env: Env, job: Job): (r: seq<Action>)
    ensures env.ipcInit(job.uid).Some? ==> r == [Hang(job.uid)]
    ensures env.ipcInit(job.uid).None? && env.fork(job.uid).ForkFailed? ==> r == []
    ensures ForkFailure(env, job.uid).None? && job.niceness.None? ==> r == []
    ensures ForkFailure(env, job.uid).None? && job.niceness.Some? ==>
              r == [Renice(env.fork(job.uid).pid, job.niceness.value)]
  {
    if env.ipcInit(job.uid).Some? then [Hang(job.uid)]
    else if env.fork(job.uid).ForkFailed? then []
    else if job.niceness.Some? then [Renice(env.fork(job.uid).pid, job.niceness.value)]
    else []
  }

  /** The engine's observable state: the job table, the event and action traces, and the clock readings taken so far. */
  datatype Store = Store(manager: Table, events: seq<Event>, actions: seq<Action>, ticks: nat)

  /** `is_null($job->maxtime) ? $this->max_runtime : $job->maxtime`. */
  function Budget(cfg: Config, job: Job): (r: int)
    ensures job.maxtime.Some? ==> r == job.maxtime.value
    ensures job.maxtime.None? ==> r == cfg.maxRuntime
  {
    job.maxtime.GetOr(cfg.maxRuntime)
  }

  /** The last instant at which a started job is still within its budget. */
  function Deadline(cfg: Config, e: Entry): (r: int)
    requires e.status.Starting?
    ensures e.job.maxtime.Some? ==> r == e.status.start + e.job.maxtime.value
    ensures e.job.maxtime.None? ==> r == e.status.start + cfg.maxRuntime
  {
    e.status.start + Budget(cfg, e.job)
  }

  /** The record a completed worker is credited with: the decoded one, or the failure the read or decode raised. */
  function Output(tr: Transfer): (r: TaskResult)
    ensures tr.Received? ==> r == tr.output
    ensures tr.TransferFailed? ==> !r.success && r.result == tr.message && r.wid == None
  {
    match tr
    case Received(out) => out
    case TransferFailed(message) => TaskResult(false, message, None)
  }

  /** The body of `catcher()`'s loop for one job of the running snapshot. */
  function CatchJob(env: Env, cfg: Config, s: Store, uid: Uid): (r: Store)
    ensures uid !in s.manager.entries || !s.manager.entries[uid].status.Starting? ==> r == s
    ensures r.manager.order == s.manager.order && r.manager.entries.Keys == s.manager.entries.Keys
    ensures r.events == s.events || r.events == s.events + [Stop(uid)]
    ensures s.ticks <= r.ticks <= s.ticks + 1
  {
    if uid !in s.manager.entries || !s.manager.entries[uid].status.Starting? then s
    else
      var e := s.manager.entries[uid];
      if !env.isRunning(e.status.pid, s.ticks) then
        var tr := env.transfer(uid);
        var out := Output(tr);
        Store(IsCompleted(s.manager, uid, out.success, out.result, out.wid),
              s.events + [Stop(uid)],
              s.actions + [CloseWriter(uid)] + (if tr.Received? then [CloseReader(uid)] else []),
              s.ticks)
      else if env.clock(s.ticks) > Deadline(cfg, e) then
        Store(IsCompleted(s.manager, uid, false, KilledMessage, None),
              s.events + [Stop(uid)],
              s.actions + [Term(e.status.pid, cfg.laggerTimeout), Hang(uid)],
              s.ticks + 1)
      else
        s.(ticks := s.ticks + 1)
  }

  /** `catcher()`: the step above for every uid of the snapshot, in order. */
  function Pass(env: Env, cfg: Config, s: Store, snap: seq<Uid>): (r: Store)
    ensures r.manager.order == s.manager.order && r.manager.entries.Keys == s.manager.entries.Keys
    ensures s.ticks <= r.ticks <= s.ticks + |snap|
    ensures |s.events| <= |r.events| <= |s.events| + |snap|
    decreases |snap|
  {
    if snap == [] then s else Pass(env, cfg, CatchJob(env, cfg, s, snap[0]), snap[1..])
  }

  // ---------------------------------------------------------------------
  // The outcome of one step

  /**
   * One step on a running job: an exited worker completes with its decoded
   * record (or with the failure of the transfer); a live worker completes as
   * killed exactly when the clock reading exceeds its deadline, and is left
   * running otherwise. Only that job's entry changes; a Stop event is
   * emitted exactly when it completes; every live check ticks the clock once.
   */
  lemma CatchJobOutcome(env: Env, cfg: Config, s: Store, uid: Uid)
    requires uid in s.manager.entries && s.manager.entries[uid].status.Starting?
    ensures var e := s.manager.entries[uid];
            var s' := CatchJob(env, cfg, s, uid);
            var st := s'.manager.entries[uid].status;
            && s'.manager.order == s.manager.order
            && s'.manager.entries.Keys == s.manager.entries.Keys
            && (forall u :: u in s.manager.entries && u != uid ==> s'.manager.entries[u] == s.manager.entries[u])
            && s'.manager.entries[uid].job == e.job
            && (!env.isRunning(e.status.pid, s.ticks) ==>
                  st == Completed(Output(env.transfer(uid)).success, Output(env.transfer(uid)).result,
                                  Output(env.transfer(uid)).wid)
                  && s'.ticks == s.ticks)
            && (env.isRunning(e.status.pid, s.ticks) ==>
                  s'.ticks == s.ticks + 1
                  && (st == Completed(false, KilledMessage, None) <==> env.clock(s.ticks) > Deadline(cfg, e))
                  && (env.clock(s.ticks) <= Deadline(cfg, e) ==> st == e.status))
            && (s'.events == s.events + [Stop(uid)] <==> st.Completed?)
            && (!st.Completed? ==> s'.events == s.events)
  {
  }

  // ---------------------------------------------------------------------
  // The outcome of a pass

  /** From `t1` to `t2` some started jobs completed, and nothing else changed. */
  ghost predicate Progressed(env: Env, t1: Table, t2: Table) {
    && t2.order == t1.order
    && t2.entries.Keys == t1.entries.Keys
    && forall u :: u in t1.entries ==>
         t2.entries[u].job == t1.entries[u].job && Moved(env, u, t1.entries[u].status, t2.entries[u].status)
  }

  /** A status is unchanged, or a started job has completed as `catcher()` completes it. */
  predicate Moved(env: Env, u: Uid, a: Status, b: Status) {
    a == b || (a.Starting? && Caught(env, u, b))
  }

  /**
   * The two ways `catcher()` completes a started job: with its worker's
   * output (or the transfer failure), or as killed over its budget.
   */
  predicate Caught(env: Env, u: Uid, st: Status) {
    || st == Completed(Output(env.transfer(u)).success, Output(env.transfer(u)).result, Output(env.transfer(u)).wid)
    || st == Completed(false, KilledMessage, None)
  }

  /** Progress never adds a running job. */
  lemma ProgressedRunning(env: Env, t1: Table, t2: Table)
    requires Valid(t1) && Progressed(env, t1, t2)
    ensures |RunningUids(t2)| <= |RunningUids(t1)|
  {
    SelectShrinks(t1.entries, t2.entries, t1.order, StartingKind);
  }

  /** The uids of `snap` that were started in `t1` and are completed in `t2`. */
  function Finished(t1: Table, t2: Table, snap: seq<Uid>): seq<Uid> {
    if snap == [] then []
    else
      var u := snap[0];
      var rest := Finished(t1, t2, snap[1..]);
      if u in t1.entries && u in t2.entries && t1.entries[u].status.Starting? && t2.entries[u].status.Completed?
      then [u] + rest else rest
  }

  /** One Stop event per uid, in order. */
  function Stops(uids: seq<Uid>): (r: seq<Event>)
    ensures |r| == |uids|
  {
    if uids == [] then [] else [Stop(uids[0])] + Stops(uids[1..])
  }

  lemma FinishedSame(t1: Table, t2: Table, t3: Table, snap: seq<Uid>)
    requires forall u :: u in snap ==> (u in t1.entries <==> u in t2.entries)
    requires forall u :: u in snap && u in t1.entries ==> t1.entries[u].status == t2.entries[u].status
    ensures Finished(t1, t3, snap) == Finished(t2, t3, snap)
  {
  }

  /** One step, seen as a change of the whole store. */
  lemma CatchJobEffect(env: Env, cfg: Config, s: Store, u: Uid)
    requires Valid(s.manager)
    ensures var s1 := CatchJob(env, cfg, s, u);
            && Valid(s1.manager)
            && Progressed(env, s.manager, s1.manager)
            && (forall v :: v in s.manager.entries && v != u ==> s1.manager.entries[v] == s.manager.entries[v])
            && s1.ticks >= s.ticks
            && s1.events == s.events + (if u in s.manager.entries && s.manager.entries[u].status.Starting?
                                           && s1.manager.entries[u].status.Completed? then [Stop(u)] else [])
  {
    if u in s.manager.entries && s.manager.entries[u].status.Starting? {
      CatchJobOutcome(env, cfg, s, u);
    }
  }

  lemma ProgressedTransitive(env: Env, t1: Table, t2: Table, t3: Table)
    requires Progressed(env, t1, t2) && Progressed(env, t2, t3)
    ensures Progressed(env, t1, t3)
  {
  }

  lemma DistinctTail(snap: seq<Uid>)
    requires snap != [] && Distinct(snap)
    ensures Distinct(snap[1..]) && snap[0] !in snap[1..]
  {
    forall i, j | 0 <= i < j < |snap| - 1 ensures snap[1..][i] != snap[1..][j] {
      assert snap[1..][i] == snap[i + 1] && snap[1..][j] == snap[j + 1];
    }
    forall i | 0 <= i < |snap| - 1 ensures snap[1..][i] != snap[0] {
      assert snap[1..][i] == snap[i + 1];
    }
  }

  /**
   * A pass over a snapshot of distinct uids only completes started jobs
   * of the snapshot, never touches any other entry and never goes back in time.
   */
  lemma {:induction false} PassFrame(env: Env, cfg: Config, s: Store, snap: seq<Uid>)
    requires Valid(s.manager) && Distinct(snap)
    ensures var s' := Pass(env, cfg, s, snap);
            && Valid(s'.manager)
            && Progressed(env, s.manager, s'.manager)
            && (forall u :: u in s.manager.entries && u !in snap ==> s'.manager.entries[u] == s.manager.entries[u])
            && s'.ticks >= s.ticks
    decreases |snap|
  {
    if snap != [] {
      var s1 := CatchJob(env, cfg, s, snap[0]);
      DistinctTail(snap);
      CatchJobEffect(env, cfg, s, snap[0]);
      PassFrame(env, cfg, s1, snap[1..]);
      ProgressedTransitive(env, s.manager, s1.manager, Pass(env, cfg, s1, snap[1..]).manager);
    }
  }

  /** The uids of the Start events of a trace, in order. */
  function Starts(evs: seq<Event>): (r: seq<Uid>)
    ensures |r| <= |evs|
  {
    if evs == [] then [] else (if evs[0].Start? then [evs[0].uid] else []) + Starts(evs[1..])
  }

  lemma {:induction false} StartsAppend(a: seq<Event>, b: seq<Event>)
    ensures Starts(a + b) == Starts(a) + Starts(b)
  {
    if a == [] {
      assert a + b == b;
    } else {
      assert (a + b)[0] == a[0];
      assert (a + b)[1..] == a[1..] + b;
      StartsAppend(a[1..], b);
      AppendAssoc(if a[0].Start? then [a[0].uid] else [], Starts(a[1..]), Starts(b));
    }
  }

  /** A trace of Stop events holds no Start event. */
  lemma {:induction false} StartsStops(uids: seq<Uid>)
    ensures Starts(Stops(uids)) == []
  {
    if uids != [] {
      StartsStops(uids[1..]);
    }
  }

  lemma {:induction false} StopsAppend(a: seq<Uid>, b: seq<Uid>)
    ensures Stops(a + b) == Stops(a) + Stops(b)
  {
    if a == [] {
      assert a + b == b;
    } else {
      assert (a + b)[0] == a[0];
      assert (a + b)[1..] == a[1..] + b;
      StopsAppend(a[1..], b);
      assert Stops(a + b) == [Stop(a[0])] + Stops(a[1..] + b);
      AppendAssoc([Stop(a[0])], Stops(a[1..]), Stops(b));
    }
  }

  /** A pass emits exactly one Stop event per job it completes, in snapshot order. */
  lemma {:induction false} PassEvents(env: Env, cfg: Config, s: Store, snap: seq<Uid>)
    requires Valid(s.manager) && Distinct(snap)
    ensures var s' := Pass(env, cfg, s, snap);
            s'.events == s.events + Stops(Finished(s.manager, s'.manager, snap))
    decreases |snap|
  {
    if snap != [] {
      var u := snap[0];
      var s1 := CatchJob(env, cfg, s, u);
      var s' := Pass(env, cfg, s1, snap[1..]);
      assert s' == Pass(env, cfg, s, snap);
      assert Distinct(snap[1..]) && u !in snap[1..] by { DistinctTail(snap); }
      var head: seq<Uid> := if u in s.manager.entries && s.manager.entries[u].status.Starting?
                                && s1.manager.entries[u].status.Completed? then [u] else [];
      assert Valid(s1.manager) && s1.events == s.events + Stops(head)
             && s1.manager.entries.Keys == s.manager.entries.Keys
             && (forall v :: v in s.manager.entries && v != u ==> s1.manager.entries[v] == s.manager.entries[v]) by {
        CatchJobEffect(env, cfg, s, u);
      }
      var fin1 := Finished(s1.manager, s'.manager, snap[1..]);
      assert s'.events == s1.events + Stops(fin1) by { PassEvents(env, cfg, s1, snap[1..]); }
      assert u in s.manager.entries ==> s'.manager.entries[u] == s1.manager.entries[u] by {
        PassFrame(env, cfg, s1, snap[1..]);
      }
      assert Finished(s.manager, s'.manager, snap[1..]) == fin1 by {
        FinishedStep(s.manager, s1.manager, s'.manager, snap);
      }
      assert Finished(s.manager, s'.manager, snap) == head + fin1;
      assert s'.events == s.events + Stops(head + fin1) by {
        AppendAssoc(s.events, Stops(head), Stops(fin1));
        StopsAppend(head, fin1);
      }
    }
  }

  /** A pass emits no Start event. */
  lemma PassStarts(env: Env, cfg: Config, s: Store, snap: seq<Uid>)
    requires Valid(s.manager) && Distinct(snap)
    ensures Starts(Pass(env, cfg, s, snap).events) == Starts(s.events)
  {
    var stops := Stops(Finished(s.manager, Pass(env, cfg, s, snap).manager, snap));
    PassEvents(env, cfg, s, snap);
    StartsAppend(s.events, stops);
    StartsStops(Finished(s.manager, Pass(env, cfg, s, snap).manager, snap));
    assert Starts(s.events) + [] == Starts(s.events);
  }

  /** A launch emits one Start event, followed by a Stop event when the fork fails. */
  lemma LaunchStarts(e: seq<Event>, uid: Uid)
    ensures Starts(e + [Start(uid)]) == Starts(e) + [uid]
    ensures Starts(e + [Start(uid), Stop(uid)]) == Starts(e) + [uid]
  {
    assert [Start(uid)][1..] == [];
    assert [Start(uid), Stop(uid)][1..] == [Stop(uid)] && [Stop(uid)][1..] == [];
    StartsAppend(e, [Start(uid)]);
    StartsAppend(e, [Start(uid), Stop(uid)]);
  }

  lemma FinishedStep(t0: Table, t1: Table, t2: Table, snap: seq<Uid>)
    requires snap != [] && snap[0] !in snap[1..]
    requires t1.entries.Keys == t0.entries.Keys
    requires forall u :: u in snap[1..] && u in t0.entries ==> t1.entries[u].status == t0.entries[u].status
    ensures Finished(t0, t2, snap[1..]) == Finished(t1, t2, snap[1..])
  {
    FinishedSame(t0, t1, t2, snap[1..]);
  }

  // ---------------------------------------------------------------------
  // The catcher loops end: the clock moves on and every budget is finite

  /** How far the clock reading `now` still is from the horizon `d`. */
  function Gap(d: int, now: int): nat {
    if d > now then d - now else 0
  }

  /** Every started job's deadline is before `d`. */
  ghost predicate Bounded(cfg: Config, t: Table, d: int) {
    forall u :: u in t.entries && t.entries[u].status.Starting? ==> Deadline(cfg, t.entries[u]) < d
  }

  /** One past the latest deadline among the started jobs of `uids`. */
  function Horizon(cfg: Config, t: Table, uids: seq<Uid>): int {
    if uids == [] then 0
    else
      var rest := Horizon(cfg, t, uids[1..]);
      var u := uids[0];
      if u in t.entries && t.entries[u].status.Starting? && Deadline(cfg, t.entries[u]) >= rest
      then Deadline(cfg, t.entries[u]) + 1 else rest
  }

  lemma {:induction false} HorizonBounds(cfg: Config, t: Table, uids: seq<Uid>)
    ensures forall u :: u in uids && u in t.entries && t.entries[u].status.Starting? ==>
              Deadline(cfg, t.entries[u]) < Horizon(cfg, t, uids)
  {
    if uids != [] {
      HorizonBounds(cfg, t, uids[1..]);
    }
  }

  lemma HorizonBounded(cfg: Config, t: Table)
    requires Valid(t)
    ensures Bounded(cfg, t, Horizon(cfg, t, t.order))
  {
    HorizonBounds(cfg, t, t.order);
  }

  /** A step that leaves a started job running found it alive and within budget, and read the clock. */
  lemma StepLeftRunning(env: Env, cfg: Config, s: Store, u: Uid)
    requires u in s.manager.entries && s.manager.entries[u].status.Starting?
    requires CatchJob(env, cfg, s, u).manager.entries[u].status.Starting?
    ensures env.clock(s.ticks) <= Deadline(cfg, s.manager.entries[u])
    ensures CatchJob(env, cfg, s, u).ticks == s.ticks + 1
  {
  }

  /** A pass keeps every started-job deadline below `d`, never adds a running job and never rewinds the clock. */
  lemma PassMonotone(env: Env, cfg: Config, s: Store, snap: seq<Uid>, d: int)
    requires ClockAdvances(env) && Valid(s.manager) && Distinct(snap)
    requires Bounded(cfg, s.manager, d)
    ensures var s' := Pass(env, cfg, s, snap);
            && Bounded(cfg, s'.manager, d)
            && Gap(d, env.clock(s'.ticks)) <= Gap(d, env.clock(s.ticks))
            && |RunningUids(s'.manager)| <= |RunningUids(s.manager)|
  {
    var s' := Pass(env, cfg, s, snap);
    assert Valid(s'.manager) && Progressed(env, s.manager, s'.manager) && s'.ticks >= s.ticks by {
      PassFrame(env, cfg, s, snap);
    }
    forall u | u in s'.manager.entries && s'.manager.entries[u].status.Starting?
      ensures Deadline(cfg, s'.manager.entries[u]) < d
    {
      assert s'.manager.entries[u] == s.manager.entries[u];
    }
    assert Gap(d, env.clock(s'.ticks)) <= Gap(d, env.clock(s.ticks)) by {
      if s'.ticks > s.ticks {
        ClockMonotone(env.clock, s.ticks, s'.ticks);
      }
    }
    assert |RunningUids(s'.manager)| <= |RunningUids(s.manager)| by {
      SelectShrinks(s.manager.entries, s'.manager.entries, s.manager.order, StartingKind);
    }
  }

  /**
   * A pass over the running jobs makes progress: either some job stops
   * running, or the clock gets strictly closer to the horizon `d`, and
   * neither measure ever grows back.
   */
  lemma PassProgress(env: Env, cfg: Config, s: Store, d: int)
    requires ClockAdvances(env) && Valid(s.manager)
    requires RunningUids(s.manager) != []
    requires Bounded(cfg, s.manager, d)
    ensures var s' := Pass(env, cfg, s, RunningUids(s.manager));
            && Bounded(cfg, s'.manager, d)
            && Gap(d, env.clock(s'.ticks)) <= Gap(d, env.clock(s.ticks))
            && |RunningUids(s'.manager)| <= |RunningUids(s.manager)|
            && (|RunningUids(s'.manager)| < |RunningUids(s.manager)|
                || Gap(d, env.clock(s'.ticks)) < Gap(d, env.clock(s.ticks)))
  {
    var t := s.manager;
    var snap := RunningUids(t);
    SelectDistinct(t.entries, t.order, StartingKind);
    PassMonotone(env, cfg, s, snap, d);
    var u := snap[0];
    var s1 := CatchJob(env, cfg, s, u);
    var s' := Pass(env, cfg, s1, snap[1..]);
    assert s' == Pass(env, cfg, s, snap);
    DistinctTail(snap);
    CatchJobEffect(env, cfg, s, u);
    PassFrame(env, cfg, s1, snap[1..]);
    if s1.manager.entries[u].status.Starting? {
      StepLeftRunning(env, cfg, s, u);
      ClockMonotone(env.clock, s.ticks, s'.ticks);
    } else {
      assert s'.manager.entries[u] == s1.manager.entries[u];
      PassFrame(env, cfg, s, snap);
      SelectShrinks(t.entries, s'.manager.entries, t.order, StartingKind);
    }
  }

  /** The pass over `xs + [x]` is the pass over `xs` followed by the step for `x`. */
  lemma {:induction false} PassSnoc(env: Env, cfg: Config, s: Store, xs: seq<Uid>, x: Uid)
    ensures Pass(env, cfg, s, xs + [x]) == CatchJob(env, cfg, Pass(env, cfg, s, xs), x)
    decreases |xs|
  {
    if xs == [] {
      assert [x][1..] == [];
    } else {
      assert (xs + [x])[1..] == xs[1..] + [x];
      PassSnoc(env, cfg, CatchJob(env, cfg, s, xs[0]), xs[1..], x);
    }
  }
}

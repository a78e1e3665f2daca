/**
 * Jobs\Runner: the single-threaded, cooperative dispatch engine. It walks
 * the queued jobs of its job table and either runs each one inline
 * (sequential mode) or forks a worker for it (concurrent mode), keeping the
 * number of running workers under the fork limit by polling them with
 * `catcher()`, and finally drains the running set with `catcher_loop()`.
 */
module Jobs {
  import opened Wrappers
  import opened JobTable
  import opened JobsCatcher

  /** One Start and one Stop event for each of the first `n` uids, in order: the trace of a sequential run. */
  function Brackets(uids: seq<Uid>, n: nat): (r: seq<Event>)
    requires n <= |uids|
    ensures |r| == 2 * n
  {
    if n == 0 then [] else Brackets(uids, n - 1) + [Start(uids[n - 1]), Stop(uids[n - 1])]
  }

  /** The `j`-th uid's Start and Stop events are adjacent, at positions `2j` and `2j + 1`. */
  lemma {:induction false} BracketsAt(uids: seq<Uid>, n: nat, j: nat)
    requires j < n <= |uids|
    ensures Brackets(uids, n)[2 * j] == Start(uids[j]) && Brackets(uids, n)[2 * j + 1] == Stop(uids[j])
  {
    if j < n - 1 {
      BracketsAt(uids, n - 1, j);
    }
  }

  /** The jobs of a sequential run start in the order of the list. */
  lemma {:induction false} BracketsStarts(uids: seq<Uid>, n: nat)
    requires n <= |uids|
    ensures Starts(Brackets(uids, n)) == uids[..n]
  {
    if n > 0 {
      BracketsStarts(uids, n - 1);
      LaunchStarts(Brackets(uids, n - 1), uids[n - 1]);
      assert uids[..n] == uids[..n - 1] + [uids[n - 1]];
    }
  }

  /** The record a sequential run credits a job with: the task runner's answer. */
  function RunInline(env: Env, job: Job): (r: Status)
    ensures r.Kind() == CompletedKind
    ensures r.success == env.runTask(job).success && r.result == env.runTask(job).result && r.wid == env.runTask(job).wid
  {
    Completed(env.runTask(job).success, env.runTask(job).result, env.runTask(job).wid)
  }

  /** Every uid of the list is a job of the table that is running. */
  ghost predicate AllStarting(t: Table, uids: seq<Uid>) {
    forall u :: u in uids ==> u in t.entries && t.entries[u].status.Starting?
  }

  /** The graceful (`term`) or forceful (`kill`) signal to each of the first `n` running workers, in table order. */
  function Signals(t: Table, uids: seq<Uid>, n: nat, graceful: bool, grace: int): (r: seq<Action>)
    requires n <= |uids|
    requires AllStarting(t, uids)
    ensures |r| == n
  {
    if n == 0 then []
    else
      var pid := t.entries[uids[n - 1]].status.pid;
      Signals(t, uids, n - 1, graceful, grace) + [if graceful then Term(pid, grace) else Kill(pid)]
  }

  /** Each signal goes to the worker of the running job at the same position. */
  lemma {:induction false} SignalsAt(t: Table, uids: seq<Uid>, n: nat, graceful: bool, grace: int, i: nat)
    requires n <= |uids|
    requires AllStarting(t, uids)
    requires i < n
    ensures Signals(t, uids, n, graceful, grace)[i] ==
              (if graceful then Term(t.entries[uids[i]].status.pid, grace) else Kill(t.entries[uids[i]].status.pid))
  {
    if i < n - 1 {
      SignalsAt(t, uids, n - 1, graceful, grace, i);
    }
  }

  class Runner {
    const env: Env
    const cfg: Config

    /** The job table (`$this->manager`). */
    var manager: Table
    /** The events emitted so far. */
    var events: seq<Event>
    /** The signals and IPC calls issued so far. */
    var actions: seq<Action>
    /** How many times the clock has been read. */
    var ticks: nat
    /**
     * Every concurrent launch so far, in order: the job and the number of
     * jobs running right after it. Only a launch adds a running job.
     */
    ghost var launches: seq<(Uid, nat)>

    ghost predicate Valid()
      reads this
    {
      JobTable.Valid(manager)
    }

    function State(): Store
      reads this
    {
      Store(manager, events, actions, ticks)
    }

    constructor (env: Env, cfg: Config)
      ensures Valid()
      ensures this.env == env && this.cfg == cfg
      ensures State() == Store(Empty(), [], [], 0) && launches == []
    {
      this.env := env;
      this.cfg := cfg;
      manager := Empty();
      events := [];
      actions := [];
      ticks := 0;
      launches := [];
    }

    /** `add($job)`: a job whose task is not in the tasks table is refused and nothing is queued. */
    method Add(job: Job) returns (ok: bool)
      requires Valid() && job.uid !in manager.entries
      modifies this`manager
      ensures Valid()
      ensures ok <==> job.task in cfg.tasks
      ensures manager == if ok then IsQueued(old(manager), job) else old(manager)
      ensures ok ==> QueuedUids(manager) == old(QueuedUids(manager)) + [job.uid]
      ensures events == old(events) && actions == old(actions) && ticks == old(ticks)
    {
      if job.task !in cfg.tasks {
        return false;
      }
      ghost var t := manager;
      manager := IsQueued(manager, job);
      QueuedAppend(t, job);
      ok := true;
    }

    /** `microtime(true)`: one reading of the clock. */
    method Now() returns (now: int)
      modifies this`ticks
      ensures now == env.clock(old(ticks)) && ticks == old(ticks) + 1
    {
      now := env.clock(ticks);
      ticks := ticks + 1;
    }

    /** One iteration of the `abortQueued` loop. */
    method AbortNext(queued: seq<Uid>, i: nat, message: string, ghost t0: Table)
      requires i < |queued| && InTable(t0, queued)
      requires manager == AbortAll(t0, queued, i, message)
      modifies this`manager
      ensures manager == AbortAll(t0, queued, i + 1, message)
    {
      manager := IsAborted(manager, queued[i], message);
    }

    /** `abortQueued($message)`: every queued job becomes aborted with `message`; nothing else changes. */
    method AbortQueued(message: string)
      requires Valid()
      modifies this`manager
      ensures Valid()
      ensures manager == AbortAll(old(manager), old(QueuedUids(manager)), old(|QueuedUids(manager)|), message)
      ensures events == old(events) && actions == old(actions) && ticks == old(ticks)
    {
      var queued := QueuedUids(manager);
      ghost var t0 := manager;
      assert InTable(t0, queued);
      for i := 0 to |queued|
        invariant manager == AbortAll(t0, queued, i, message)
      {
        AbortNext(queued, i, message, t0);
      }
      assert t0 == old(manager) && queued == old(QueuedUids(manager));
    }

    /** `stop()`: abort the queued jobs, then send the graceful signal, with the lagger timeout, to every running worker. */
    method Stop()
      requires Valid()
      modifies this`manager, this`actions
      ensures Valid()
      ensures manager == AbortAll(old(manager), old(QueuedUids(manager)), old(|QueuedUids(manager)|), StopMessage)
      ensures actions == old(actions) + Signals(manager, RunningUids(manager), |RunningUids(manager)|, true, cfg.laggerTimeout)
      ensures events == old(events) && ticks == old(ticks)
    {
      AbortQueued(StopMessage);
      SignalRunning(true);
    }

    /** `kill()`: abort the queued jobs, then send the forceful signal to every running worker. */
    method Kill()
      requires Valid()
      modifies this`manager, this`actions
      ensures Valid()
      ensures manager == AbortAll(old(manager), old(QueuedUids(manager)), old(|QueuedUids(manager)|), KillMessage)
      ensures actions == old(actions) + Signals(manager, RunningUids(manager), |RunningUids(manager)|, false, 0)
      ensures events == old(events) && ticks == old(ticks)
    {
      AbortQueued(KillMessage);
      SignalRunning(false);
    }

    /** The loop of `stop()` and `kill()` over `running()`: statuses are not changed here. */
    method SignalRunning(graceful: bool)
      requires Valid()
      modifies this`actions
      ensures actions == old(actions) + Signals(manager, RunningUids(manager), |RunningUids(manager)|, graceful, if graceful then cfg.laggerTimeout else 0)
    {
      var running := RunningUids(manager);
      var grace := if graceful then cfg.laggerTimeout else 0;
      ghost var a0 := actions;
      assert AllStarting(manager, running);
      for i := 0 to |running|
        invariant actions == a0 + Signals(manager, running, i, graceful, grace)
      {
        var pid := manager.entries[running[i]].status.pid;
        var signal := if graceful then Term(pid, grace) else Action.Kill(pid);
        AppendAssoc(a0, Signals(manager, running, i, graceful, grace), [signal]);
        actions := actions + [signal];
      }
      assert a0 == old(actions);
    }

    /**
     * The parent side of `forker($job)`: IPC initialisation, then the fork.
     * A failure of either is an exception, whose message is returned here;
     * a forked worker gets the job's niceness, if it has one.
     */
    method Forker(job: Job) returns (r: Result<int>)
      modifies this`actions
      ensures r.Err? <==> ForkFailure(env, job.uid).Some?
      ensures r.Err? ==> r.message == ForkFailure(env, job.uid).value
      ensures env.ipcInit(job.uid).Some? ==> actions == old(actions) + [Hang(job.uid)]
      ensures env.ipcInit(job.uid).None? && env.fork(job.uid).ForkFailed? ==> actions == old(actions)
      ensures r.Ok? ==> env.fork(job.uid) == Forked(r.value)
                        && actions == old(actions) + (if job.niceness.Some? then [Renice(r.value, job.niceness.value)] else [])
      ensures actions == old(actions) + ForkActions(env, job)
    {
      var init := env.ipcInit(job.uid);
      if init.Some? {
        actions := actions + [Hang(job.uid)];
        return Err(init.value);
      }
      var pid := env.fork(job.uid);
      if pid.ForkFailed? {
        return Err(ForkFailedMessage);
      }
      if job.niceness.Some? {
        actions := actions + [Renice(pid.pid, job.niceness.value)];
      }
      r := Ok(pid.pid);
    }

    /** The body of `catcher()` for one job of its snapshot. */
    method CatchOne(uid: Uid)
      requires Valid()
      modifies this`manager, this`events, this`actions, this`ticks
      ensures State() == CatchJob(env, cfg, old(State()), uid)
    {
      if uid !in manager.entries || !manager.entries[uid].status.Starting? {
        return;
      }
      var e := manager.entries[uid];
      if !env.isRunning(e.status.pid, ticks) {
        actions := actions + [CloseWriter(uid)];
        var tr := env.transfer(uid);
        var success, result, wid;
        match tr {
          case Received(out) =>
            actions := actions + [CloseReader(uid)];
            success, result, wid := out.success, out.result, out.wid;
          case TransferFailed(message) =>
            success, result, wid := false, message, None;
        }
        manager := IsCompleted(manager, uid, success, result, wid);
        events := events + [Event.Stop(uid)];
      } else {
        var now := Now();
        var maxtime := e.job.maxtime.GetOr(cfg.maxRuntime);
        if now > e.status.start + maxtime {
          actions := actions + [Term(e.status.pid, cfg.laggerTimeout), Hang(uid)];
          manager := IsCompleted(manager, uid, false, KilledMessage, None);
          events := events + [Event.Stop(uid)];
        }
      }
    }

    /** One iteration of the `catcher()` loop: the pass extended by one job. */
    method CatchNext(running: seq<Uid>, i: nat, ghost s0: Store)
      requires Valid() && i < |running|
      requires State() == Pass(env, cfg, s0, running[..i])
      modifies this`manager, this`events, this`actions, this`ticks
      ensures Valid()
      ensures State() == Pass(env, cfg, s0, running[..i + 1])
    {
      ghost var before := State();
      CatchOne(running[i]);
      assert Valid() by { CatchJobEffect(env, cfg, before, running[i]); }
      assert running[..i + 1] == running[..i] + [running[i]];
      PassSnoc(env, cfg, s0, running[..i], running[i]);
    }

    /** `catcher()`: one pass over a snapshot of the running jobs. */
    method Catcher()
      requires Valid()
      modifies this`manager, this`events, this`actions, this`ticks
      ensures State() == Pass(env, cfg, old(State()), old(RunningUids(manager)))
      ensures Valid()
    {
      var running := RunningUids(manager);
      ghost var s0 := State();
      SelectDistinct(manager.entries, manager.order, StartingKind);
      for i := 0 to |running|
        invariant Valid()
        invariant State() == Pass(env, cfg, s0, running[..i])
      {
        CatchNext(running, i, s0);
      }
      assert running[..|running|] == running;
      assert s0 == old(State());
    }

    /**
     * `catcher_loop()`: poll until no job is running. It ends because the
     * clock advances and every running job has a finite deadline; at the
     * end every job that was running has completed and nothing else changed.
     */
    method CatcherLoop()
      requires Valid() && ClockAdvances(env)
      modifies this`manager, this`events, this`actions, this`ticks
      ensures Valid() && Progressed(env, old(manager), manager)
      ensures RunningUids(manager) == []
      ensures forall u :: u in manager.entries && old(manager.entries[u].status).Starting? ==>
                Caught(env, u, manager.entries[u].status)
      ensures Starts(events) == Starts(old(events))
    {
      ghost var t0 := manager;
      ghost var e0 := events;
      ghost var d := Horizon(cfg, manager, manager.order);
      HorizonBounded(cfg, manager);
      while RunningUids(manager) != []
        invariant Valid() && Progressed(env, t0, manager)
        invariant Bounded(cfg, manager, d)
        invariant Starts(events) == Starts(e0)
        decreases Gap(d, env.clock(ticks)), |RunningUids(manager)|
      {
        ghost var s := State();
        Catcher();
        PassProgress(env, cfg, s, d);
        SelectDistinct(s.manager.entries, s.manager.order, StartingKind);
        PassFrame(env, cfg, s, RunningUids(s.manager));
        PassStarts(env, cfg, s, RunningUids(s.manager));
        ProgressedTransitive(env, t0, s.manager, manager);
      }
      NoneRunning(manager);
      assert e0 == old(events);
    }

    /**
     * `run()`'s loop body for one queued job when single-threaded: the job
     * is marked starting under this process's pid, run in place, and
     * completed with the task runner's answer, between a Start and a Stop
     * event.
     */
    method RunHere(uid: Uid)
      requires Valid() && uid in manager.entries && manager.entries[uid].status.Queued?
      modifies this`manager, this`events, this`ticks
      ensures Valid() && SameJobs(old(manager), manager)
      ensures manager.entries[uid].status == RunInline(env, old(manager.entries[uid].job))
      ensures forall v :: v in manager.entries && v != uid ==> manager.entries[v] == old(manager.entries[v])
      ensures events == old(events) + [Start(uid), Event.Stop(uid)]
      ensures actions == old(actions)
    {
      var job := manager.entries[uid].job;
      events := events + [Start(uid)];
      var start := Now();
      manager := IsStarting(manager, uid, env.selfPid, start);
      var r := env.runTask(job);
      manager := IsCompleted(manager, uid, r.success, r.result, r.wid);
      events := events + [Event.Stop(uid)];
      SnocPair(old(events), Start(uid), Event.Stop(uid));
    }

    /**
     * `run()`'s loop body for one queued job when concurrent, up to the
     * fork limit: a Start event, then the fork. A fork failure aborts the
     * job with the exception's message and is followed by a Stop event;
     * otherwise the job is marked starting under the child's pid, at the
     * time read right after the fork. The launch is recorded together with
     * the number of jobs then running, which is one more exactly when the
     * fork succeeded.
     */
    method Launch(uid: Uid)
      requires Valid() && uid in manager.entries && manager.entries[uid].status.Queued?
      modifies this`manager, this`events, this`actions, this`ticks, this`launches
      ensures Valid() && SameJobs(old(manager), manager)
      ensures ForkFailure(env, uid).Some? ==>
                && manager.entries[uid].status == Aborted(ForkFailure(env, uid).value)
                && |RunningUids(manager)| == |old(RunningUids(manager))|
                && events == old(events) + [Start(uid), Event.Stop(uid)]
                && ticks == old(ticks)
      ensures ForkFailure(env, uid).None? ==>
                && manager.entries[uid].status == Starting(env.fork(uid).pid, env.clock(old(ticks)))
                && |RunningUids(manager)| == |old(RunningUids(manager))| + 1
                && events == old(events) + [Start(uid)]
                && ticks == old(ticks) + 1
      ensures actions == old(actions) + ForkActions(env, old(manager.entries[uid].job))
      ensures launches == old(launches) + [(uid, |RunningUids(manager)|)]
      ensures forall v :: v in manager.entries && v != uid ==> manager.entries[v] == old(manager.entries[v])
    {
      var job := manager.entries[uid].job;
      ghost var t0 := manager;
      ghost var a0 := actions;
      events := events + [Start(uid)];
      var forked := Forker(job);
      assert actions == a0 + ForkActions(env, job);
      if forked.Err? {
        manager := IsAborted(manager, uid, forked.message);
        events := events + [Event.Stop(uid)];
        SnocPair(old(events), Start(uid), Event.Stop(uid));
        assert |RunningUids(manager)| == |RunningUids(t0)| by {
          SelectSame(t0.entries, manager.entries, t0.order, StartingKind);
        }
      } else {
        var start := Now();
        manager := IsStarting(manager, uid, forked.value, start);
        assert |RunningUids(manager)| == |RunningUids(t0)| + 1 by {
          SelectGrowsByOne(t0.entries, manager.entries, t0.order, StartingKind, uid);
        }
      }
      launches := launches + [(uid, |RunningUids(manager)|)];
      assert t0 == old(manager) && a0 == old(actions) && job == t0.entries[uid].job;
    }

    /**
     * The fork-limit wait in `run()`: `catcher()` runs until fewer than
     * `maxChilds` jobs are running. It ends for the same reason
     * `CatcherLoop` does; it starts no job and emits no Start event.
     */
    method WaitForSlot()
      requires Valid() && ClockAdvances(env) && cfg.maxChilds > 0
      modifies this`manager, this`events, this`actions, this`ticks
      ensures Valid() && Progressed(env, old(manager), manager)
      ensures |RunningUids(manager)| < cfg.maxChilds
      ensures |RunningUids(manager)| <= |old(RunningUids(manager))|
      ensures Starts(events) == Starts(old(events))
    {
      ghost var t0 := manager;
      ghost var e0 := events;
      ghost var d := Horizon(cfg, manager, manager.order);
      HorizonBounded(cfg, manager);
      while |RunningUids(manager)| >= cfg.maxChilds
        invariant Valid() && Progressed(env, t0, manager)
        invariant Bounded(cfg, manager, d)
        invariant Starts(events) == Starts(e0)
        decreases Gap(d, env.clock(ticks)), |RunningUids(manager)|
      {
        ghost var s := State();
        Catcher();
        PassProgress(env, cfg, s, d);
        SelectDistinct(s.manager.entries, s.manager.order, StartingKind);
        PassFrame(env, cfg, s, RunningUids(s.manager));
        PassStarts(env, cfg, s, RunningUids(s.manager));
        ProgressedTransitive(env, t0, s.manager, manager);
      }
      ProgressedRunning(env, t0, manager);
      assert t0 == old(manager) && e0 == old(events);
    }

    /**
     * `run()`'s loop body for one queued job when concurrent: launch it,
     * then, if the fork succeeded, wait for a free slot when the fork limit
     * is reached. A failed fork goes straight on to the next job, with no
     * catcher pass. `rec` is the record the launch added.
     */
    method LaunchOne(uid: Uid) returns (ghost rec: (Uid, nat))
      requires Valid() && ClockAdvances(env)
      requires uid in manager.entries && manager.entries[uid].status.Queued?
      modifies this`manager, this`events, this`actions, this`ticks, this`launches
      ensures Valid() && SameJobs(old(manager), manager)
      ensures Launched(env, uid, manager.entries[uid].status)
      ensures forall v :: v in manager.entries && v != uid ==>
                Moved(env, v, old(manager.entries[v].status), manager.entries[v].status)
      ensures launches == old(launches) + [rec] && rec.0 == uid
      ensures rec.1 == |old(RunningUids(manager))| + (if ForkFailure(env, uid).None? then 1 else 0)
      ensures |RunningUids(manager)| <= rec.1
      ensures Starts(events) == Starts(old(events)) + [uid]
      ensures ForkFailure(env, uid).Some? ==>
                && events == old(events) + [Start(uid), Event.Stop(uid)]
                && ticks == old(ticks)
                && forall v :: v in manager.entries && v != uid ==> manager.entries[v] == old(manager.entries[v])
      ensures cfg.maxChilds > 0 && |old(RunningUids(manager))| < cfg.maxChilds ==>
                rec.1 <= cfg.maxChilds && |RunningUids(manager)| < cfg.maxChilds
    {
      Launch(uid);
      rec := (uid, |RunningUids(manager)|);
      LaunchStarts(old(events), uid);
      if ForkFailure(env, uid).None? && cfg.maxChilds > 0 && |RunningUids(manager)| >= cfg.maxChilds {
        ghost var t1 := manager;
        WaitForSlot();
        LaunchedMoved(env, uid, t1.entries[uid].status, manager.entries[uid].status);
      }
    }

    /** One turn of the sequential loop: the `i`-th queued job runs here. */
    method RunNext(queued: seq<Uid>, i: nat, ghost t0: Table, ghost e0: seq<Event>)
      requires Valid() && RanUpTo(env, t0, manager, queued, i) && i < |queued| && JobTable.Distinct(queued)
      requires events == e0 + Brackets(queued, i)
      modifies this`manager, this`events, this`ticks
      ensures Valid() && RanUpTo(env, t0, manager, queued, i + 1)
      ensures events == e0 + Brackets(queued, i + 1)
      ensures actions == old(actions)
    {
      var uid := queued[i];
      ghost var t1 := manager;
      RunHere(uid);
      RanStep(env, t0, t1, manager, queued, i);
      AppendAssoc(e0, Brackets(queued, i), [Start(uid), Event.Stop(uid)]);
    }

    /** The `foreach` over `queued()` when single-threaded. */
    method RunQueue(queued: seq<Uid>, ghost t0: Table, ghost e0: seq<Event>)
      requires Valid() && RanUpTo(env, t0, manager, queued, 0) && JobTable.Distinct(queued)
      requires events == e0
      modifies this`manager, this`events, this`ticks
      ensures Valid() && RanUpTo(env, t0, manager, queued, |queued|)
      ensures events == e0 + Brackets(queued, |queued|)
    {
      for i := 0 to |queued|
        invariant Valid() && RanUpTo(env, t0, manager, queued, i)
        invariant events == e0 + Brackets(queued, i)
      {
        RunNext(queued, i, t0, e0);
      }
    }

    /**
     * `run()`'s loop when single-threaded: every queued job, in queue
     * order, runs in place and is completed with the task runner's answer.
     */
    method RunAllHere()
      requires Valid()
      modifies this`manager, this`events, this`ticks
      ensures Valid() && SameJobs(old(manager), manager)
      ensures forall u :: u in manager.entries ==>
                manager.entries[u].status ==
                  (if old(manager.entries[u].status).Queued? then RunInline(env, manager.entries[u].job)
                   else old(manager.entries[u].status))
      ensures events == old(events) + Brackets(old(QueuedUids(manager)), old(|QueuedUids(manager)|))
      ensures actions == old(actions)
    {
      var queued := QueuedUids(manager);
      ghost var t0 := manager;
      ghost var e0 := events;
      SelectDistinct(manager.entries, manager.order, QueuedKind);
      RanNone(env, t0, queued);
      RunQueue(queued, t0, e0);
      assert forall u :: u in manager.entries ==>
                manager.entries[u].status ==
                  (if t0.entries[u].status.Queued? then RunInline(env, manager.entries[u].job)
                   else t0.entries[u].status) by {
        RanAll(env, t0, manager, queued);
      }
      assert t0 == old(manager) && e0 == old(events);
      assert queued == old(QueuedUids(manager)) && |queued| == old(|QueuedUids(manager)|);
    }

    /** One turn of the concurrent loop: the `i`-th queued job is launched and its record appended. */
    method LaunchNext(queued: seq<Uid>, i: nat, ghost t0: Table, ghost e0: seq<Event>, ghost l0: seq<(Uid, nat)>,
                      ghost bounded: bool, ghost recs: seq<(Uid, nat)>) returns (ghost recs': seq<(Uid, nat)>)
      requires Valid() && ClockAdvances(env) && JobTable.Distinct(queued)
      requires i < |queued| && LaunchedUpTo(env, t0, manager, queued, i)
      requires launches == l0 + recs && |recs| == i
      requires forall k :: 0 <= k < i ==> recs[k].0 == queued[k]
      requires Starts(events) == Starts(e0) + queued[..i]
      requires bounded ==> cfg.maxChilds > 0 && |RunningUids(manager)| < cfg.maxChilds
                           && forall k :: 0 <= k < i ==> recs[k].1 <= cfg.maxChilds
      modifies this`manager, this`events, this`actions, this`ticks, this`launches
      ensures Valid() && LaunchedUpTo(env, t0, manager, queued, i + 1)
      ensures launches == l0 + recs' && |recs'| == i + 1
      ensures forall k :: 0 <= k < i + 1 ==> recs'[k].0 == queued[k]
      ensures Starts(events) == Starts(e0) + queued[..i + 1]
      ensures bounded ==> |RunningUids(manager)| < cfg.maxChilds
                          && forall k :: 0 <= k < i + 1 ==> recs'[k].1 <= cfg.maxChilds
    {
      ghost var t1 := manager;
      var rec := LaunchOne(queued[i]);
      LaunchedStep(env, t0, t1, manager, queued, i);
      AppendAssoc(l0, recs, [rec]);
      recs' := recs + [rec];
      TakeSnoc(queued, i);
      AppendAssoc(Starts(e0), queued[..i], [queued[i]]);
    }

    /**
     * `run()`'s loop when concurrent: every queued job, in queue order, is
     * forked or aborted, waiting for a free slot whenever the fork limit is
     * reached. `recs` are the launch records added, one per queued job in
     * queue order; when the limit held on entry, no launch ever left more
     * than `maxChilds` jobs running.
     */
    method LaunchAll() returns (ghost recs: seq<(Uid, nat)>)
      requires Valid() && ClockAdvances(env)
      modifies this`manager, this`events, this`actions, this`ticks, this`launches
      ensures Valid() && SameJobs(old(manager), manager)
      ensures forall u :: u in manager.entries && old(manager.entries[u].status).Queued? ==>
                Launched(env, u, manager.entries[u].status)
      ensures forall u :: u in manager.entries && !old(manager.entries[u].status).Queued? ==>
                Moved(env, u, old(manager.entries[u].status), manager.entries[u].status)
      ensures launches == old(launches) + recs && |recs| == old(|QueuedUids(manager)|)
      ensures forall k :: 0 <= k < |recs| ==> recs[k].0 == old(QueuedUids(manager))[k]
      ensures Starts(events) == Starts(old(events)) + old(QueuedUids(manager))
      ensures cfg.maxChilds > 0 && |old(RunningUids(manager))| < cfg.maxChilds ==>
                (forall k :: 0 <= k < |recs| ==> recs[k].1 <= cfg.maxChilds)
                && |RunningUids(manager)| < cfg.maxChilds
    {
      var queued := QueuedUids(manager);
      ghost var t0 := manager;
      ghost var e0 := events;
      ghost var l0 := launches;
      ghost var bounded := cfg.maxChilds > 0 && |RunningUids(manager)| < cfg.maxChilds;
      SelectDistinct(manager.entries, manager.order, QueuedKind);
      LaunchedNone(env, t0, queued);
      recs := [];
      for i := 0 to |queued|
        invariant Valid() && LaunchedUpTo(env, t0, manager, queued, i)
        invariant launches == l0 + recs && |recs| == i
        invariant forall k :: 0 <= k < i ==> recs[k].0 == queued[k]
        invariant Starts(events) == Starts(e0) + queued[..i]
        invariant bounded ==> cfg.maxChilds > 0 && |RunningUids(manager)| < cfg.maxChilds
                              && forall k :: 0 <= k < i ==> recs[k].1 <= cfg.maxChilds
      {
        recs := LaunchNext(queued, i, t0, e0, l0, bounded, recs);
      }
      LaunchedAll(env, t0, manager, queued);
      assert queued[..|queued|] == queued;
      assert t0 == old(manager) && e0 == old(events) && l0 == old(launches);
    }

    /**
     * `run()`: dispatch every queued job in queue order, then (concurrently)
     * wait until no job is running, and return the completed jobs. In either
     * mode the jobs start in queue order.
     */
    method Run() returns (completed: seq<Entry>, ghost recs: seq<(Uid, nat)>)
      requires Valid() && ClockAdvances(env)
      modifies this`manager, this`events, this`actions, this`ticks, this`launches
      ensures Valid() && SameJobs(old(manager), manager)
      ensures completed == CompletedEntries(manager)
      ensures QueuedUids(manager) == []
      ensures !cfg.multithread ==>
                && (forall u :: u in manager.entries ==>
                      manager.entries[u].status ==
                        (if old(manager.entries[u].status).Queued? then RunInline(env, manager.entries[u].job)
                         else old(manager.entries[u].status)))
                && events == old(events) + Brackets(old(QueuedUids(manager)), old(|QueuedUids(manager)|))
                && actions == old(actions)
                && launches == old(launches)
      ensures cfg.multithread ==>
                && RunningUids(manager) == []
                && (forall u :: u in manager.entries && old(manager.entries[u].status).Queued? ==>
                      && (ForkFailure(env, u).Some? ==> manager.entries[u].status == Aborted(ForkFailure(env, u).value))
                      && (ForkFailure(env, u).None? ==> Caught(env, u, manager.entries[u].status)))
                && (forall u :: u in manager.entries && !old(manager.entries[u].status).Queued? ==>
                      Moved(env, u, old(manager.entries[u].status), manager.entries[u].status)
                      && !manager.entries[u].status.Starting?)
                && launches == old(launches) + recs && |recs| == old(|QueuedUids(manager)|)
                && (forall k :: 0 <= k < |recs| ==> recs[k].0 == old(QueuedUids(manager))[k])
      ensures Starts(events) == Starts(old(events)) + old(QueuedUids(manager))
      ensures cfg.multithread && cfg.maxChilds > 0 && |old(RunningUids(manager))| < cfg.maxChilds ==>
                forall k :: 0 <= k < |recs| ==> recs[k].1 <= cfg.maxChilds
    {
      if !cfg.multithread {
        ghost var queued := QueuedUids(manager);
        RunAllHere();
        recs := [];
        assert Starts(events) == Starts(old(events)) + queued by {
          StartsAppend(old(events), Brackets(queued, |queued|));
          BracketsStarts(queued, |queued|);
          assert queued[..|queued|] == queued;
        }
      } else {
        recs := RunConcurrently();
      }
      assert QueuedUids(manager) == [] by { NoneQueued(manager); }
      completed := CompletedEntries(manager);
    }

    /** The concurrent half of `run()`: fork every queued job, then `catcher_loop()`. */
    method RunConcurrently() returns (ghost recs: seq<(Uid, nat)>)
      requires Valid() && ClockAdvances(env)
      modifies this`manager, this`events, this`actions, this`ticks, this`launches
      ensures Valid() && SameJobs(old(manager), manager)
      ensures RunningUids(manager) == []
      ensures forall u :: u in manager.entries && old(manager.entries[u].status).Queued? ==>
                && (ForkFailure(env, u).Some? ==> manager.entries[u].status == Aborted(ForkFailure(env, u).value))
                && (ForkFailure(env, u).None? ==> Caught(env, u, manager.entries[u].status))
      ensures forall u :: u in manager.entries && !old(manager.entries[u].status).Queued? ==>
                Moved(env, u, old(manager.entries[u].status), manager.entries[u].status)
                && !manager.entries[u].status.Starting?
      ensures forall u :: u in manager.entries ==> !manager.entries[u].status.Queued?
      ensures launches == old(launches) + recs && |recs| == old(|QueuedUids(manager)|)
      ensures forall k :: 0 <= k < |recs| ==> recs[k].0 == old(QueuedUids(manager))[k]
      ensures Starts(events) == Starts(old(events)) + old(QueuedUids(manager))
      ensures cfg.maxChilds > 0 && |old(RunningUids(manager))| < cfg.maxChilds ==>
                forall k :: 0 <= k < |recs| ==> recs[k].1 <= cfg.maxChilds
    {
      ghost var t0 := manager;
      recs := LaunchAll();
      ghost var t1 := manager;
      CatcherLoop();
      LaunchedDrained(env, t0, t1, manager);
      assert t0 == old(manager);
    }
  }

  // ---------------------------------------------------------------------
  // Helper facts about the projections used above

  lemma QueuedAppend(t: Table, job: Job)
    requires JobTable.Valid(t) && job.uid !in t.entries
    ensures QueuedUids(IsQueued(t, job)) == QueuedUids(t) + [job.uid]
  {
    var r := IsQueued(t, job);
    SelectSnoc(r.entries, t.order, job.uid, QueuedKind);
    SelectSame(t.entries, r.entries, t.order, QueuedKind);
  }

  lemma {:induction false} SelectSnoc(entries: map<Uid, Entry>, order: seq<Uid>, u: Uid, k: Kind)
    ensures Select(entries, order + [u], k) ==
            Select(entries, order, k) + (if u in entries && entries[u].status.Kind() == k then [u] else [])
  {
    if order == [] {
      assert order + [u] == [u];
    } else {
      assert (order + [u])[1..] == order[1..] + [u];
      SelectSnoc(entries, order[1..], u, k);
    }
  }

  /**
   * The loop invariant of a sequential `run()` after `i` of the `queued`
   * jobs of `t0`: those carry the task runner's answer, the rest are still
   * queued, and every other job is untouched.
   */
  ghost predicate RanUpTo(env: Env, t0: Table, t: Table, queued: seq<Uid>, i: nat) {
    && i <= |queued|
    && SameJobs(t0, t)
    && (forall u :: u in queued ==> u in t.entries)
    && (forall j :: 0 <= j < i ==> t.entries[queued[j]].status == RunInline(env, t.entries[queued[j]].job))
    && (forall j :: i <= j < |queued| ==> t.entries[queued[j]].status == Queued)
    && (forall u :: u in t.entries && u !in queued ==> t.entries[u] == t0.entries[u])
  }

  lemma RanNone(env: Env, t0: Table, queued: seq<Uid>)
    requires JobTable.Valid(t0) && queued == QueuedUids(t0)
    ensures RanUpTo(env, t0, t0, queued, 0)
  {
  }

  lemma RanStep(env: Env, t0: Table, t1: Table, t2: Table, queued: seq<Uid>, i: nat)
    requires RanUpTo(env, t0, t1, queued, i) && i < |queued| && JobTable.Distinct(queued)
    requires SameJobs(t1, t2)
    requires t2.entries[queued[i]].status == RunInline(env, t1.entries[queued[i]].job)
    requires forall v :: v in t2.entries && v != queued[i] ==> t2.entries[v] == t1.entries[v]
    ensures RanUpTo(env, t0, t2, queued, i + 1)
  {
  }

  lemma RanAll(env: Env, t0: Table, t: Table, queued: seq<Uid>)
    requires JobTable.Valid(t0) && queued == QueuedUids(t0)
    requires RanUpTo(env, t0, t, queued, |queued|)
    ensures forall u :: u in t.entries ==>
              t.entries[u].status ==
                (if t0.entries[u].status.Queued? then RunInline(env, t.entries[u].job) else t0.entries[u].status)
  {
    forall u | u in t.entries && t0.entries[u].status.Queued?
      ensures t.entries[u].status == RunInline(env, t.entries[u].job)
    {
      assert u in queued;
      var j :| 0 <= j < |queued| && queued[j] == u;
    }
  }

  /** What a concurrent run makes of a queued job: aborted on a fork failure, started otherwise. */
  predicate Launched(env: Env, u: Uid, st: Status) {
    && (ForkFailure(env, u).Some? ==> st == Aborted(ForkFailure(env, u).value))
    && (ForkFailure(env, u).None? ==> st.Starting? || Caught(env, u, st))
  }

  /**
   * Launching every queued job of `t0` (giving `t1`) and then draining the
   * running set (giving `t2`) leaves every job terminal: a launched job is
   * aborted or completed, and no job is queued or running.
   */
  lemma LaunchedDrained(env: Env, t0: Table, t1: Table, t2: Table)
    requires JobTable.Valid(t0) && JobTable.Valid(t2) && SameJobs(t0, t1)
    requires forall u :: u in t1.entries && t0.entries[u].status.Queued? ==> Launched(env, u, t1.entries[u].status)
    requires forall u :: u in t1.entries && !t0.entries[u].status.Queued? ==> Moved(env, u, t0.entries[u].status, t1.entries[u].status)
    requires Progressed(env, t1, t2) && RunningUids(t2) == []
    requires forall u :: u in t2.entries && t1.entries[u].status.Starting? ==> Caught(env, u, t2.entries[u].status)
    ensures SameJobs(t0, t2)
    ensures forall u :: u in t2.entries && t0.entries[u].status.Queued? ==>
              && (ForkFailure(env, u).Some? ==> t2.entries[u].status == Aborted(ForkFailure(env, u).value))
              && (ForkFailure(env, u).None? ==> Caught(env, u, t2.entries[u].status))
    ensures forall u :: u in t2.entries && !t0.entries[u].status.Queued? ==>
              Moved(env, u, t0.entries[u].status, t2.entries[u].status) && !t2.entries[u].status.Starting?
    ensures forall u :: u in t2.entries ==> !t2.entries[u].status.Queued?
  {
    NoneRunning(t2);
    forall u | u in t2.entries ensures !t2.entries[u].status.Starting? {
      assert u in t2.order;
    }
  }

  /**
   * The loop invariant of a concurrent `run()` after `i` of the `queued`
   * jobs of `t0`: those are launched, the rest are still queued, and every
   * other job has at most progressed.
   */
  ghost predicate LaunchedUpTo(env: Env, t0: Table, t: Table, queued: seq<Uid>, i: nat) {
    && i <= |queued|
    && SameJobs(t0, t)
    && (forall u :: u in queued ==> u in t.entries)
    && (forall j :: 0 <= j < i ==> Launched(env, queued[j], t.entries[queued[j]].status))
    && (forall j :: i <= j < |queued| ==> t.entries[queued[j]].status == Queued)
    && (forall u :: u in t.entries && u !in queued ==> Moved(env, u, t0.entries[u].status, t.entries[u].status))
  }

  lemma LaunchedNone(env: Env, t0: Table, queued: seq<Uid>)
    requires JobTable.Valid(t0) && queued == QueuedUids(t0)
    ensures LaunchedUpTo(env, t0, t0, queued, 0)
  {
  }

  lemma LaunchedStep(env: Env, t0: Table, t1: Table, t2: Table, queued: seq<Uid>, i: nat)
    requires LaunchedUpTo(env, t0, t1, queued, i) && i < |queued| && JobTable.Distinct(queued)
    requires SameJobs(t1, t2) && Launched(env, queued[i], t2.entries[queued[i]].status)
    requires forall v :: v in t2.entries && v != queued[i] ==> Moved(env, v, t1.entries[v].status, t2.entries[v].status)
    ensures LaunchedUpTo(env, t0, t2, queued, i + 1)
  {
    forall j | 0 <= j < i
      ensures Launched(env, queued[j], t2.entries[queued[j]].status)
    {
      LaunchedMoved(env, queued[j], t1.entries[queued[j]].status, t2.entries[queued[j]].status);
    }
    forall j | i + 1 <= j < |queued|
      ensures t2.entries[queued[j]].status == Queued
    {
      assert queued[j] != queued[i];
    }
    forall u | u in t2.entries && u !in queued
      ensures Moved(env, u, t0.entries[u].status, t2.entries[u].status)
    {
      assert u != queued[i];
    }
  }

  lemma LaunchedAll(env: Env, t0: Table, t: Table, queued: seq<Uid>)
    requires JobTable.Valid(t0) && queued == QueuedUids(t0)
    requires LaunchedUpTo(env, t0, t, queued, |queued|)
    ensures forall u :: u in t.entries && t0.entries[u].status.Queued? ==> Launched(env, u, t.entries[u].status)
    ensures forall u :: u in t.entries && !t0.entries[u].status.Queued? ==> Moved(env, u, t0.entries[u].status, t.entries[u].status)
  {
    forall u | u in t.entries && t0.entries[u].status.Queued?
      ensures Launched(env, u, t.entries[u].status)
    {
      assert u in queued;
      var j :| 0 <= j < |queued| && queued[j] == u;
    }
  }

  lemma LaunchedMoved(env: Env, u: Uid, st1: Status, st2: Status)
    requires Launched(env, u, st1) && Moved(env, u, st1, st2)
    ensures Launched(env, u, st2)
  {
  }

  lemma NoneRunning(t: Table)
    requires RunningUids(t) == []
    ensures forall u :: u in t.entries && u in t.order ==> !t.entries[u].status.Starting?
  {
  }
}

/**
 * Comodojo\Extender\Job\JobsRunner: the older runner, which keeps its
 * bookkeeping in plain PHP arrays. `jobs` maps a job uid to the job's
 * description, `running_processes` maps a worker pid to (name, uid, start,
 * id), and `completed_processes` is a list of 7-tuples (pid, name, success,
 * start, end, result, id). `run()` dispatches every job and then drains the
 * running queue, removing each pid once it has exited or has overrun the
 * time limit.
 */
module Job {
  import opened Wrappers
  import opened PhpArray

  // ---------------------------------------------------------------------
  // Data

  /** The getters of the `Job` object handed to `addJob`. */
  datatype JobSpec = JobSpec(name: string, id: int, parameters: seq<(string, string)>,
                             task: string, target: string, className: string)

  /** `$this->jobs[$uid]`: what `addJob` stores about a job. */
  datatype Record = Record(name: string, id: int, parameters: seq<(string, string)>,
                           task: string, target: string, className: string)

  /** `$this->running_processes[$pid]`: array(name, uid, start timestamp, job id). */
  datatype Process = Process(name: string, uid: string, start: int, id: int)

  /** One row of `completed_processes`: array(pid, name, success, start, end, result, id); null is None. */
  datatype Outcome = Outcome(pid: Option<int>, name: string, success: bool, start: int,
                             end: Option<int>, result: string, id: int)

  /** What `runMultithread` hands back to `run()` (its "pid" is null when nothing was forked). */
  datatype Launch = Launch(pid: Option<int>, name: string, uid: string, timestamp: int, id: int)

  /** Instantiating the task class and calling `start()`: its result array, or an exception. */
  datatype TaskRun =
    | Returned(success: bool, timestamp: int, result: string)
      /** `constructed` is false when the constructor itself threw, before `getPid()`. */
    | Threw(constructed: bool, message: string)

  /** The parent's `socket_read` on a worker's reader, followed by `unserialize`. */
  datatype Read = ReadFailed(reason: string) | Decoded(success: bool, timestamp: int, result: string)

  /** `pcntl_fork()` as the parent sees it: a child pid, or -1. */
  datatype Fork = Child(pid: int) | NoFork

  /**
   * Everything the runner asks of PHP and of the operating system, as
   * fixed answers: `uid(k)` is the k-th value of `getJobUid()`, `clock(k)`
   * the k-th reading of `microtime`, `isRunning(pid, k)` the answer of
   * `pcntl_waitpid(..., WNOHANG) === 0` when the clock has been read `k`
   * times, `socketPair(uid)` the error text when `socket_create_pair`
   * fails for that job. `classExists(c)` is `class_exists` for the classes
   * loaded before the runner exists; `defines(target)` are the task classes
   * the file `target` declares once `include` has run it.
   */
  datatype Env = Env(
    uid: nat -> string,
    classExists: string -> bool,
    fileExists: string -> bool,
    includes: string -> bool,
    defines: string -> set<string>,
    selfPid: int,
    start: Record -> TaskRun,
    socketPair: string -> Option<string>,
    fork: string -> Fork,
    isRunning: (int, nat) -> bool,
    read: string -> Read,
    clock: nat -> int)

  /** `microtime` readings strictly increase. */
  ghost predicate ClockAdvances(env: Env) {
    forall k: nat :: env.clock(k) < env.clock(k + 1)
  }

  function RecordOf(job: JobSpec): Record {
    Record(job.name, job.id, job.parameters, job.task, job.target, job.className)
  }

  /**
   * `addJob` refuses a job whose class is not loaded (neither before the
   * runner existed nor by a file an earlier `addJob` included) and whose
   * file is missing or cannot be included.
   */
  predicate Loadable(env: Env, defined: set<string>, job: JobSpec)
    ensures env.classExists(job.className) || job.className in defined ==> Loadable(env, defined, job)
    ensures !env.fileExists(job.target) || !env.includes(job.target) ==>
              (Loadable(env, defined, job) <==> env.classExists(job.className) || job.className in defined)
  {
    env.classExists(job.className) || job.className in defined || (env.fileExists(job.target) && env.includes(job.target))
  }

  // ---------------------------------------------------------------------
  // Result rows

  /** `runSinglethread`'s row for a job started at `start`. */
  function SingleOutcome(env: Env, job: Record, start: int): (o: Outcome)
    ensures o.name == job.name && o.id == job.id && o.start == start
    ensures o.success <==> env.start(job).Returned? && env.start(job).success
    ensures env.start(job).Threw? ==>
              o.end == None && o.result == env.start(job).message
              && (o.pid.Some? <==> env.start(job).constructed)
    ensures env.start(job).Returned? ==>
              o.pid == Some(env.selfPid) && o.end == Some(env.start(job).timestamp)
              && o.result == env.start(job).result
  {
    match env.start(job)
    case Returned(success, timestamp, result) =>
      Outcome(Some(env.selfPid), job.name, success, start, Some(timestamp), result, job.id)
    case Threw(constructed, message) =>
      Outcome(if constructed then Some(env.selfPid) else None, job.name, false, start, None, message, job.id)
  }

  /** The rows of a single-threaded dispatch of the first `n` jobs, the i-th started at clock reading `t + i`. */
  function Singles(env: Env, jobs: seq<Entry<string, Record>>, t: nat, n: nat): (r: seq<Outcome>)
    requires n <= |jobs|
    ensures |r| == n
  {
    if n == 0 then [] else Singles(env, jobs, t, n - 1) + [SingleOutcome(env, jobs[n - 1].1, env.clock(t + n - 1))]
  }

  /** Each single-threaded row belongs to the job at its own position, started at its own clock reading. */
  lemma {:induction false} SinglesAt(env: Env, jobs: seq<Entry<string, Record>>, t: nat, n: nat, i: nat)
    requires n <= |jobs| && i < n
    ensures Singles(env, jobs, t, n)[i] == SingleOutcome(env, jobs[i].1, env.clock(t + i))
  {
    if i < n - 1 {
      SinglesAt(env, jobs, t, n - 1, i);
    }
  }

  /** The row of an exited worker: the decoded result, or a failure naming the read error. */
  function ExitOutcome(env: Env, pid: int, p: Process): (o: Outcome)
    ensures o.name == p.name && o.start == p.start && o.id == p.id
    ensures env.read(p.uid).ReadFailed? ==>
              o.pid == None && !o.success && o.end == None
              && o.result == "socket_read() failed. Reason: " + env.read(p.uid).reason
    ensures env.read(p.uid).Decoded? ==>
              o.pid == Some(pid) && o.success == env.read(p.uid).success
              && o.end == Some(env.read(p.uid).timestamp) && o.result == env.read(p.uid).result
  {
    match env.read(p.uid)
    case ReadFailed(reason) =>
      Outcome(None, p.name, false, p.start, None, "socket_read() failed. Reason: " + reason, p.id)
    case Decoded(success, timestamp, result) =>
      Outcome(Some(pid), p.name, success, p.start, Some(timestamp), result, p.id)
  }

  function DigitChar(d: nat): char
    requires d < 10
  {
    "0123456789"[d]
  }

  /** PHP's rendering of an integer in a string. */
  function Decimal(n: int): (s: string)
    ensures |s| > 0
    decreases if n < 0 then 1 - n else n
  {
    if n < 0 then "-" + Decimal(-n)
    else if n < 10 then [DigitChar(n)]
    else Decimal(n / 10) + [DigitChar(n % 10)]
  }

  /** The row of a worker killed for overrunning `limit`; its end timestamp is null. */
  function KillOutcome(pid: int, p: Process, limit: int): (o: Outcome)
    ensures o.pid == Some(pid) && o.name == p.name && o.start == p.start && o.id == p.id
    ensures !o.success && o.end == None
    ensures o.result == "Job " + p.name + " killed due to maximum exec time reached (>" + Decimal(limit) + ")"
  {
    Outcome(Some(pid), p.name, false, p.start, None,
            "Job " + p.name + " killed due to maximum exec time reached (>" + Decimal(limit) + ")", p.id)
  }

  /** A live worker has overrun when the clock is past the drain's start plus the limit. */
  predicate Overran(now: int, execTime: int, limit: int)
    ensures limit >= 0 && Overran(now, execTime, limit) ==> OverranAsWritten(now, execTime)
    ensures limit == 0 ==> (Overran(now, execTime, limit) <==> OverranAsWritten(now, execTime))
  {
    now > execTime + limit
  }

  /**
   * The timeout test as line 170 writes it: it reads the undefined
   * property `max_childs_run_time`, which is null and counts as 0.
   */
  predicate OverranAsWritten(now: int, execTime: int) {
    now > execTime
  }

  /** With a limit of 600, a worker still alive one tick after the drain began is killed as written but not as intended. */
  lemma OverranAsWrittenIgnoresLimit()
    ensures OverranAsWritten(1, 0) && !Overran(1, 0, 600)
  {
  }

  /** The kill row's message as line 195 writes it: the unset property renders as the empty string. */
  function KillResultAsWritten(p: Process): string {
    "Job " + p.name + " killed due to maximum exec time reached (>)"
  }

  /** The message as written never shows the limit the worker overran. */
  lemma KillResultAsWrittenDropsLimit(pid: int, p: Process, limit: int)
    ensures KillResultAsWritten(p) != KillOutcome(pid, p, limit).result
  {
    var written := KillResultAsWritten(p);
    var intended := KillOutcome(pid, p, limit).result;
    assert |intended| == |written| + |Decimal(limit)|;
  }

  /** The row a worker removed from the running queue gets, when the clock had been read `k` times at its check. */
  function Removal(env: Env, limit: int, pid: int, p: Process, k: nat): (o: Outcome)
    ensures o.name == p.name && o.start == p.start && o.id == p.id
  {
    if env.isRunning(pid, k) then KillOutcome(pid, p, limit) else ExitOutcome(env, pid, p)
  }

  /** The pids of the removals (`removed[j]` checked at `when[j]`) that were kills, in order. */
  function Kills(env: Env, removed: seq<int>, when: seq<nat>, n: nat): seq<int>
    requires n <= |removed| && n <= |when|
  {
    if n == 0 then []
    else Kills(env, removed, when, n - 1) + (if env.isRunning(removed[n - 1], when[n - 1]) then [removed[n - 1]] else [])
  }

  lemma {:induction false} KillsExtend(env: Env, removed: seq<int>, when: seq<nat>, pid: int, k: nat, n: nat)
    requires n <= |removed| && n <= |when|
    ensures Kills(env, removed + [pid], when + [k], n) == Kills(env, removed, when, n)
  {
    if n > 0 {
      KillsExtend(env, removed, when, pid, k, n - 1);
    }
  }

  /** How far the clock reading `now` is from passing `deadline`. */
  function Gap(deadline: int, now: int): nat {
    if now > deadline then 0 else deadline - now + 1
  }

  /** One more clock reading never widens the gap, and narrows it while the deadline is not passed. */
  lemma GapStep(env: Env, d: int, t: nat)
    requires ClockAdvances(env)
    ensures Gap(d, env.clock(t + 1)) <= Gap(d, env.clock(t))
    ensures env.clock(t) <= d ==> Gap(d, env.clock(t + 1)) < Gap(d, env.clock(t))
  {
    assert env.clock(t) < env.clock(t + 1);
  }

  // ---------------------------------------------------------------------
  // The drain loop's invariant

  /**
   * After removing `removed` (checked at `when`, giving rows `added`) from
   * the running queue `r0`, the queue is `running`: every pid of `r0` is
   * either still there with its entry or was removed exactly once, with
   * its own row.
   */
  ghost predicate Drained(env: Env, limit: int, execTime: int, r0: seq<Entry<int, Process>>,
                          running: seq<Entry<int, Process>>, removed: seq<int>, when: seq<nat>, added: seq<Outcome>)
  {
    && DistinctKeys(r0) && DistinctKeys(running)
    && PhpArray.Distinct(removed)
    && |when| == |removed| && |added| == |removed|
    && Partitioned(r0, running, removed)
    && Rows(env, limit, execTime, r0, removed, when, added)
  }

  /** Every pid of the queue is either still running, with its original entry, or removed, and not both. */
  ghost predicate Partitioned(r0: seq<Entry<int, Process>>, running: seq<Entry<int, Process>>, removed: seq<int>) {
    && (forall pid :: pid in Keys(running) ==> Lookup(running, pid) == Lookup(r0, pid))
    && (forall j :: 0 <= j < |removed| ==> removed[j] in Keys(r0) && removed[j] !in Keys(running))
    && (forall pid :: pid in Keys(r0) ==> pid in Keys(running) || pid in removed)
  }

  /** The j-th removal added the row of `removed[j]` as checked at `when[j]`, a kill only past the limit. */
  ghost predicate Rows(env: Env, limit: int, execTime: int, r0: seq<Entry<int, Process>>,
                       removed: seq<int>, when: seq<nat>, added: seq<Outcome>)
    requires |when| == |removed| && |added| == |removed|
  {
    forall j :: 0 <= j < |removed| ==>
      && removed[j] in Keys(r0)
      && added[j] == Removal(env, limit, removed[j], Lookup(r0, removed[j]).value, when[j])
      && (env.isRunning(removed[j], when[j]) ==> Overran(env.clock(when[j]), execTime, limit))
  }

  lemma DrainedStart(env: Env, limit: int, execTime: int, r0: seq<Entry<int, Process>>)
    requires DistinctKeys(r0)
    ensures Drained(env, limit, execTime, r0, r0, [], [], [])
  {
  }

  /** Removing one present pid with its row keeps the invariant. */
  lemma DrainedStep(env: Env, limit: int, execTime: int, r0: seq<Entry<int, Process>>,
                    running: seq<Entry<int, Process>>, removed: seq<int>, when: seq<nat>, added: seq<Outcome>,
                    pid: int, p: Process, k: nat)
    requires Drained(env, limit, execTime, r0, running, removed, when, added)
    requires Lookup(running, pid) == Some(p)
    requires env.isRunning(pid, k) ==> Overran(env.clock(k), execTime, limit)
    ensures Drained(env, limit, execTime, r0, Unset(running, pid), removed + [pid], when + [k],
                    added + [Removal(env, limit, pid, p, k)])
  {
    var r2 := Unset(running, pid);
    assert pid in Keys(running) && pid !in removed;
    assert DistinctKeys(r2) && forall q :: q in Keys(r2) <==> q in Keys(running) && q != pid by {
      UnsetDistinct(running, pid);
    }
    assert Partitioned(r0, r2, removed + [pid]) by {
      forall q | q in Keys(r2) ensures Lookup(r2, q) == Lookup(r0, q) {
        LookupUnset(running, pid, q);
      }
    }
    assert Lookup(r0, pid) == Some(p);
    RowsSnoc(env, limit, execTime, r0, removed, when, added, pid, p, k);
  }

  lemma RowsSnoc(env: Env, limit: int, execTime: int, r0: seq<Entry<int, Process>>,
                 removed: seq<int>, when: seq<nat>, added: seq<Outcome>, pid: int, p: Process, k: nat)
    requires |when| == |removed| && |added| == |removed|
    requires Rows(env, limit, execTime, r0, removed, when, added)
    requires pid in Keys(r0) && Lookup(r0, pid) == Some(p)
    requires env.isRunning(pid, k) ==> Overran(env.clock(k), execTime, limit)
    ensures Rows(env, limit, execTime, r0, removed + [pid], when + [k], added + [Removal(env, limit, pid, p, k)])
  {
    var removed', when', added' := removed + [pid], when + [k], added + [Removal(env, limit, pid, p, k)];
    forall j | 0 <= j < |removed'|
      ensures && removed'[j] in Keys(r0)
              && added'[j] == Removal(env, limit, removed'[j], Lookup(r0, removed'[j]).value, when'[j])
              && (env.isRunning(removed'[j], when'[j]) ==> Overran(env.clock(when'[j]), execTime, limit))
    {
      if j < |removed| {
        assert removed'[j] == removed[j] && when'[j] == when[j] && added'[j] == added[j];
      }
    }
  }

  /** Recording one more removal extends the kill list by that pid exactly when the worker was alive. */
  lemma KillsSnoc(env: Env, removed: seq<int>, when: seq<nat>, pid: int, k: nat)
    requires |removed| == |when|
    ensures Kills(env, removed + [pid], when + [k], |removed| + 1)
            == Kills(env, removed, when, |removed|) + (if env.isRunning(pid, k) then [pid] else [])
  {
    KillsExtend(env, removed, when, pid, k, |removed|);
    assert (removed + [pid])[|removed|] == pid && (when + [k])[|removed|] == k;
  }

  /** One visit of the drain loop, as `Poll` describes it, keeps the drain's bookkeeping true. */
  lemma VisitStep(env: Env, limit: int, execTime: int, r0: seq<Entry<int, Process>>, c0: seq<Outcome>, k0: seq<int>,
                  removed: seq<int>, when: seq<nat>, added: seq<Outcome>,
                  running: seq<Entry<int, Process>>, running': seq<Entry<int, Process>>,
                  completed: seq<Outcome>, completed': seq<Outcome>, killed: seq<int>, killed': seq<int>,
                  pid: int, p: Process, k: nat, gone: bool)
    returns (removed': seq<int>, when': seq<nat>, added': seq<Outcome>)
    requires Drained(env, limit, execTime, r0, running, removed, when, added)
    requires completed == c0 + added && killed == k0 + Kills(env, removed, when, |removed|)
    requires Lookup(running, pid) == Some(p)
    requires gone <==> !env.isRunning(pid, k) || Overran(env.clock(k), execTime, limit)
    requires gone ==> running' == Unset(running, pid) && completed' == completed + [Removal(env, limit, pid, p, k)]
    requires !gone ==> running' == running && completed' == completed
    requires killed' == killed + if gone && env.isRunning(pid, k) then [pid] else []
    ensures Drained(env, limit, execTime, r0, running', removed', when', added')
    ensures completed' == c0 + added' && killed' == k0 + Kills(env, removed', when', |removed'|)
    ensures |running'| == if gone then |running| - 1 else |running|
    ensures when' == if gone then when + [k] else when
  {
    removed', when', added' := removed, when, added;
    if gone {
      var row := Removal(env, limit, pid, p, k);
      assert |running'| == |running| - 1 by { UnsetDistinct(running, pid); }
      assert Drained(env, limit, execTime, r0, running', removed + [pid], when + [k], added + [row]) by {
        DrainedStep(env, limit, execTime, r0, running, removed, when, added, pid, p, k);
      }
      var ks := Kills(env, removed, when, |removed|);
      var x := if env.isRunning(pid, k) then [pid] else [];
      assert killed' == k0 + Kills(env, removed + [pid], when + [k], |removed| + 1) by {
        KillsSnoc(env, removed, when, pid, k);
        AppendAssoc(k0, ks, x);
      }
      assert completed' == c0 + (added + [row]) by {
        AppendAssoc(c0, added, [row]);
      }
      added' := added + [row];
      removed', when' := removed + [pid], when + [k];
    }
  }

  /**
   * The removals were checked at clock readings between the `t0`-th and
   * the `t`-th, in the order of the removals.
   */
  ghost predicate Timed(when: seq<nat>, t0: nat, t: nat) {
    && t0 <= t
    && (forall j :: 0 <= j < |when| ==> t0 <= when[j] <= t)
    && (forall j, k :: 0 <= j < k < |when| ==> when[j] <= when[k])
  }

  lemma TimedStep(when: seq<nat>, t0: nat, t: nat, t': nat, gone: bool)
    requires Timed(when, t0, t) && t <= t'
    ensures Timed(if gone then when + [t] else when, t0, t')
  {
  }

  /** Every check of a drain that starts after the clock's `t0`-th reading sees a later time than that reading. */
  lemma TimedAfter(env: Env, when: seq<nat>, t0: nat, t: nat)
    requires ClockAdvances(env) && Timed(when, t0 + 1, t)
    ensures forall j :: 0 <= j < |when| ==> env.clock(when[j]) > env.clock(t0)
  {
    forall j | 0 <= j < |when| ensures env.clock(when[j]) > env.clock(t0) {
      ClockMonotone(env.clock, t0, when[j]);
    }
  }

  /** The workers of the snapshot from position `i` on are still in the running queue, unchanged. */
  ghost predicate Ahead(running: seq<Entry<int, Process>>, snapshot: seq<Entry<int, Process>>, i: nat) {
    forall k :: i <= k < |snapshot| ==> Lookup(running, snapshot[k].0) == Some(snapshot[k].1)
  }

  /** Unsetting the worker at position `i` of a snapshot leaves the later workers of the snapshot in place. */
  lemma SnapshotAhead(running: seq<Entry<int, Process>>, snapshot: seq<Entry<int, Process>>, i: nat)
    requires DistinctKeys(snapshot) && i < |snapshot|
    requires Ahead(running, snapshot, i)
    ensures Ahead(Unset(running, snapshot[i].0), snapshot, i + 1)
  {
    forall k | i + 1 <= k < |snapshot| ensures Lookup(Unset(running, snapshot[i].0), snapshot[k].0) == Some(snapshot[k].1) {
      assert Keys(snapshot)[k] != Keys(snapshot)[i];
      LookupUnset(running, snapshot[i].0, snapshot[k].0);
    }
  }

  /** The drain is over: every pid of the queue was removed exactly once. */
  lemma DrainedAll(env: Env, limit: int, execTime: int, r0: seq<Entry<int, Process>>,
                   removed: seq<int>, when: seq<nat>, added: seq<Outcome>)
    requires Drained(env, limit, execTime, r0, [], removed, when, added)
    ensures forall pid :: pid in Keys(r0) <==> pid in removed
    ensures |removed| == |r0|
    ensures PhpArray.Distinct(removed) && |when| == |removed| && |added| == |removed|
    ensures forall j :: 0 <= j < |removed| ==>
              && added[j] == Removal(env, limit, removed[j], Lookup(r0, removed[j]).value, when[j])
              && (env.isRunning(removed[j], when[j]) ==> Overran(env.clock(when[j]), execTime, limit))
  {
    DistinctCount(Keys(r0), removed);
    DistinctCount(removed, Keys(r0));
  }

  /** A duplicate-free sequence whose elements all occur in `b` is no longer than `b`. */
  lemma {:induction false} DistinctCount(a: seq<int>, b: seq<int>)
    requires PhpArray.Distinct(a)
    requires forall x :: x in a ==> x in b
    ensures |a| <= |b|
    decreases |a|
  {
    if a != [] {
      var x := a[0];
      assert x in a;
      var i :| 0 <= i < |b| && b[i] == x;
      var a' := a[1..];
      var b' := b[..i] + b[i + 1..];
      forall y | y in a' ensures y in b' {
        var p :| 0 <= p < |a'| && a'[p] == y;
        assert a[p + 1] == y && a[0] != a[p + 1] && y in a;
        var j :| 0 <= j < |b| && b[j] == y;
        if j < i { assert b'[j] == y; } else { assert j > i && b'[j - 1] == y; }
      }
      forall p, q | 0 <= p < q < |a'| ensures a'[p] != a'[q] {
        assert a'[p] == a[p + 1] && a'[q] == a[q + 1];
      }
      DistinctCount(a', b');
    }
  }

  /**
   * The rows `runMultithread` records for job `uid` when its first clock
   * reading is the `t`-th: one failed row, with a null pid, when the
   * socket pair or the fork fails, and none otherwise.
   */
  function MultiRows(env: Env, uid: string, job: Record, t: nat): (r: seq<Outcome>)
    ensures |r| <= 1
    ensures r == [] <==> env.socketPair(uid).None? && !env.fork(uid).NoFork?
    ensures forall k :: 0 <= k < |r| ==>
              && r[k].pid == None && !r[k].success && r[k].name == job.name && r[k].id == job.id
              && r[k].start == env.clock(t) && r[k].end == Some(env.clock(t + 1))
    ensures env.socketPair(uid).Some? ==> r[0].result == "No IPC communication, exiting - " + env.socketPair(uid).value
    ensures env.socketPair(uid).None? && env.fork(uid).NoFork? ==> r[0].result == "Could not fok job"
  {
    match env.socketPair(uid)
    case Some(err) =>
      [Outcome(None, job.name, false, env.clock(t), Some(env.clock(t + 1)), "No IPC communication, exiting - " + err, job.id)]
    case None =>
      if env.fork(uid).NoFork? then
        [Outcome(None, job.name, false, env.clock(t), Some(env.clock(t + 1)), "Could not fok job", job.id)]
      else []
  }

  /**
   * The dispatch loop of `run()` after `i` jobs, in `multi` mode or not:
   * single-threaded, the rows are the jobs' own rows in order, one clock
   * reading each; multi-threaded, every row recorded is a failed launch
   * with a null pid, at most one per job.
   */
  ghost predicate Dispatched(env: Env, multi: bool, jobs: seq<Entry<string, Record>>, t0: nat, i: nat,
                             ticks: nat, dispatched: seq<Outcome>) {
    && i <= |jobs| && t0 <= ticks
    && (!multi ==> dispatched == Singles(env, jobs, t0, i) && ticks == t0 + i)
    && (multi ==> |dispatched| <= i && forall k :: 0 <= k < |dispatched| ==> dispatched[k].pid == None && !dispatched[k].success)
  }

  // ---------------------------------------------------------------------
  // The runner

  class JobsRunner {
    const env: Env
    /** `$this->multithread`: false, and never assigned. */
    const multithread: bool
    /** `$this->max_childs_runtime`, as given to the constructor. */
    const maxChildsRuntime: int

    var jobs: seq<Entry<string, Record>>
    var runningProcesses: seq<Entry<int, Process>>
    var completedProcesses: seq<Outcome>
    var forkedProcesses: seq<int>
    /** The pids sent SIGTERM (or SIGKILL) by `kill()`, in order. */
    var killed: seq<int>
    /** How many uids `getJobUid()` has drawn. */
    var draws: nat
    /** The task classes declared by the files `addJob` has included. */
    var defined: set<string>
    /** How many times the clock has been read. */
    var ticks: nat

    ghost predicate Valid()
      reads this
    {
      DistinctKeys(jobs) && DistinctKeys(runningProcesses)
    }

    /** `new JobsRunner($logger, $max_result_bytes_in_multithread, $max_childs_runtime)`. */
    constructor (env: Env, maxChildsRuntime: int)
      ensures Valid()
      ensures this.env == env && this.maxChildsRuntime == maxChildsRuntime && !multithread
      ensures jobs == [] && runningProcesses == [] && completedProcesses == [] && forkedProcesses == []
      ensures killed == [] && draws == 0 && ticks == 0 && defined == {}
    {
      this.env := env;
      this.maxChildsRuntime := maxChildsRuntime;
      multithread := false;
      jobs := [];
      runningProcesses := [];
      completedProcesses := [];
      forkedProcesses := [];
      killed := [];
      draws := 0;
      ticks := 0;
      defined := {};
    }

    /** `microtime(true)`: one reading of the clock. */
    method Now() returns (now: int)
      modifies this`ticks
      ensures now == env.clock(old(ticks)) && ticks == old(ticks) + 1
    {
      now := env.clock(ticks);
      ticks := ticks + 1;
    }

    /**
     * `addJob($job)`: draw a uid; refuse the job (false) when its class is
     * not loaded and its file is missing or cannot be included; otherwise
     * store its description under the uid (a new uid goes last) and
     * return the uid.
     */
    method AddJob(job: JobSpec) returns (r: Option<string>)
      requires Valid()
      modifies this`jobs, this`draws, this`defined
      ensures Valid() && draws == old(draws) + 1
      ensures r.None? <==> !Loadable(env, old(defined), job)
      ensures r.None? ==> jobs == old(jobs)
      ensures defined == old(defined) +
                if r.Some? && !env.classExists(job.className) && job.className !in old(defined)
                then env.defines(job.target) else {}
      ensures r.Some? ==>
                && r.value == env.uid(old(draws))
                && jobs == Put(old(jobs), r.value, RecordOf(job))
                && Lookup(jobs, r.value) == Some(RecordOf(job))
                && (forall k :: k != r.value ==> Lookup(jobs, k) == Lookup(old(jobs), k))
                && (r.value !in Keys(old(jobs)) ==> Keys(jobs) == Keys(old(jobs)) + [r.value])
    {
      var uid := env.uid(draws);
      draws := draws + 1;
      if !env.classExists(job.className) && job.className !in defined {
        if !env.fileExists(job.target) {
          return None;
        }
        if !env.includes(job.target) {
          return None;
        }
        defined := defined + env.defines(job.target);
      }
      forall k ensures Lookup(Put(jobs, uid, RecordOf(job)), k) == if k == uid then Some(RecordOf(job)) else Lookup(jobs, k) {
        LookupPut(jobs, uid, RecordOf(job), k);
      }
      KeysPut(jobs, uid, RecordOf(job));
      PutDistinct(jobs, uid, RecordOf(job));
      jobs := Put(jobs, uid, RecordOf(job));
      r := Some(uid);
    }

    /**
     * `runSinglethread($jobUid)`: run the job in this process and return
     * its row; an exception gives a failed row with a null end and the
     * exception's message.
     */
    method RunSinglethread(uid: string) returns (o: Outcome)
      requires uid in Keys(jobs)
      modifies this`ticks
      ensures ticks == old(ticks) + 1
      ensures o == SingleOutcome(env, Lookup(jobs, uid).value, env.clock(old(ticks)))
    {
      var job := Lookup(jobs, uid).value;
      var start := Now();
      match env.start(job)
      case Returned(success, timestamp, result) =>
        o := Outcome(Some(env.selfPid), job.name, success, start, Some(timestamp), result, job.id);
      case Threw(constructed, message) =>
        o := Outcome(if constructed then Some(env.selfPid) else None, job.name, false, start, None, message, job.id);
    }

    /**
     * The parent side of `runMultithread($jobUid)`. When the socket pair
     * cannot be created, a failed row is recorded and a null pid returned;
     * when the fork fails, a failed row is recorded. The method never
     * returns after the fork, so the caller always sees a null pid.
     */
    method RunMultithread(uid: string) returns (status: Launch)
      requires uid in Keys(jobs)
      modifies this`ticks, this`completedProcesses
      ensures status.pid == None && status.uid == uid
      ensures completedProcesses == old(completedProcesses) + MultiRows(env, uid, Lookup(jobs, uid).value, old(ticks))
      ensures ticks == old(ticks) + |MultiRows(env, uid, Lookup(jobs, uid).value, old(ticks))| + 1
    {
      var job := Lookup(jobs, uid).value;
      var start := Now();
      var pair := env.socketPair(uid);
      if pair.Some? {
        var now := Now();
        completedProcesses := completedProcesses +
          [Outcome(None, job.name, false, start, Some(now), "No IPC communication, exiting - " + pair.value, job.id)];
        return Launch(None, job.name, uid, start, job.id);
      }
      var pid := env.fork(uid);
      if pid.NoFork? {
        var now := Now();
        completedProcesses := completedProcesses +
          [Outcome(None, job.name, false, start, Some(now), "Could not fok job", job.id)];
      }
      status := Launch(None, job.name, uid, start, job.id);
    }

    /** Lines 87-93 of `run()`: a launch with a pid enters the running queue and the forked list. */
    method Track(status: Launch)
      requires Valid()
      modifies this`runningProcesses, this`forkedProcesses
      ensures Valid()
      ensures status.pid.None? ==> runningProcesses == old(runningProcesses) && forkedProcesses == old(forkedProcesses)
      ensures status.pid.Some? ==>
                && runningProcesses == Put(old(runningProcesses), status.pid.value,
                                           Process(status.name, status.uid, status.timestamp, status.id))
                && forkedProcesses == old(forkedProcesses) + [status.pid.value]
    {
      if status.pid.Some? {
        PutDistinct(runningProcesses, status.pid.value, Process(status.name, status.uid, status.timestamp, status.id));
        runningProcesses := Put(runningProcesses, status.pid.value,
                                Process(status.name, status.uid, status.timestamp, status.id));
        forkedProcesses := forkedProcesses + [status.pid.value];
      }
    }

    /** One iteration of the `foreach` over `$this->jobs` in `run()`. */
    method DispatchOne(i: nat, ghost t0: nat, ghost c0: seq<Outcome>, ghost dispatched: seq<Outcome>)
      returns (ghost dispatched': seq<Outcome>)
      requires Valid() && i < |jobs|
      requires Dispatched(env, multithread && |jobs| > 1, jobs, t0, i, ticks, dispatched)
      requires completedProcesses == c0 + dispatched
      modifies this`runningProcesses, this`completedProcesses, this`forkedProcesses, this`ticks
      ensures Valid()
      ensures Dispatched(env, multithread && |jobs| > 1, jobs, t0, i + 1, ticks, dispatched')
      ensures completedProcesses == c0 + dispatched'
      ensures runningProcesses == old(runningProcesses) && forkedProcesses == old(forkedProcesses)
    {
      if multithread && |jobs| > 1 {
        dispatched' := DispatchForked(i, c0, dispatched);
      } else {
        dispatched' := DispatchInline(i, t0, c0, dispatched);
      }
    }

    /** Lines 85-93 of `run()`: launch job `i` in a child; only a launch with a pid is tracked. */
    method DispatchForked(i: nat, ghost c0: seq<Outcome>, ghost dispatched: seq<Outcome>)
      returns (ghost dispatched': seq<Outcome>)
      requires Valid() && i < |jobs|
      requires |dispatched| <= i && forall k :: 0 <= k < |dispatched| ==> dispatched[k].pid == None && !dispatched[k].success
      requires completedProcesses == c0 + dispatched
      modifies this`runningProcesses, this`completedProcesses, this`forkedProcesses, this`ticks
      ensures Valid()
      ensures |dispatched'| <= i + 1 && forall k :: 0 <= k < |dispatched'| ==> dispatched'[k].pid == None && !dispatched'[k].success
      ensures completedProcesses == c0 + dispatched'
      ensures runningProcesses == old(runningProcesses) && forkedProcesses == old(forkedProcesses)
      ensures ticks > old(ticks)
    {
      var uid := jobs[i].0;
      assert Lookup(jobs, uid) == Some(jobs[i].1) by { LookupAt(jobs, i); }
      ghost var t := ticks;
      var status := RunMultithread(uid);
      Track(status);
      ghost var rowsIn := MultiRows(env, uid, jobs[i].1, t);
      dispatched' := dispatched + rowsIn;
      AppendAssoc(c0, dispatched, rowsIn);
    }

    /** Lines 97-99 of `run()`: run job `i` in this process and record its row. */
    method DispatchInline(i: nat, ghost t0: nat, ghost c0: seq<Outcome>, ghost dispatched: seq<Outcome>)
      returns (ghost dispatched': seq<Outcome>)
      requires Valid() && i < |jobs| && dispatched == Singles(env, jobs, t0, i) && ticks == t0 + i
      requires completedProcesses == c0 + dispatched
      modifies this`completedProcesses, this`ticks
      ensures Valid()
      ensures dispatched' == Singles(env, jobs, t0, i + 1) && ticks == t0 + i + 1
      ensures completedProcesses == c0 + dispatched'
    {
      var uid := jobs[i].0;
      assert Lookup(jobs, uid) == Some(jobs[i].1) by { LookupAt(jobs, i); }
      var status := RunSinglethread(uid);
      assert status == SingleOutcome(env, jobs[i].1, env.clock(t0 + i));
      completedProcesses := completedProcesses + [status];
      dispatched' := dispatched + [status];
      assert dispatched' == Singles(env, jobs, t0, i + 1);
      AppendAssoc(c0, dispatched, [status]);
    }

    /** The `foreach` over `$this->jobs` in `run()`, in insertion order. */
    method Dispatch() returns (ghost dispatched: seq<Outcome>)
      requires Valid()
      modifies this`runningProcesses, this`completedProcesses, this`forkedProcesses, this`ticks
      ensures Valid() && Dispatched(env, multithread && |jobs| > 1, jobs, old(ticks), |jobs|, ticks, dispatched)
      ensures completedProcesses == old(completedProcesses) + dispatched
      ensures runningProcesses == old(runningProcesses) && forkedProcesses == old(forkedProcesses)
    {
      ghost var t0 := ticks;
      ghost var c0 := completedProcesses;
      dispatched := [];
      for i := 0 to |jobs|
        invariant Valid() && Dispatched(env, multithread && |jobs| > 1, jobs, t0, i, ticks, dispatched)
        invariant completedProcesses == c0 + dispatched
        invariant runningProcesses == old(runningProcesses) && forkedProcesses == old(forkedProcesses)
      {
        dispatched := DispatchOne(i, t0, c0, dispatched);
      }
      assert t0 == old(ticks) && c0 == old(completedProcesses);
    }

    /**
     * `run()`: dispatch every job, read the clock as the drain's start,
     * drain the running queue, and return the rows. Single-threaded (the
     * only mode a constructed runner has), the rows are one per job, in
     * insertion order. Multi-threaded, the dispatch records only failed
     * launches and never adds to the running queue, so the drain sees the
     * queue as it was. Either way the queue ends empty and each of its
     * workers adds one row, an exit row or, past the limit, a kill row.
     */
    method Run() returns (completed: seq<Outcome>, ghost dispatched: seq<Outcome>, ghost execTime: int,
                          ghost removed: seq<int>, ghost when: seq<nat>, ghost rows: seq<Outcome>)
      requires Valid() && ClockAdvances(env)
      modifies this`runningProcesses, this`completedProcesses, this`forkedProcesses, this`killed, this`ticks
      ensures Valid() && runningProcesses == [] && completed == completedProcesses
      ensures completedProcesses == old(completedProcesses) + dispatched + rows
      ensures !(multithread && |jobs| > 1) ==>
                dispatched == Singles(env, jobs, old(ticks), |jobs|) && execTime == env.clock(old(ticks) + |jobs|)
      ensures multithread && |jobs| > 1 ==>
                |dispatched| <= |jobs| && forall k :: 0 <= k < |dispatched| ==> dispatched[k].pid == None && !dispatched[k].success
      ensures forkedProcesses == old(forkedProcesses)
      ensures PhpArray.Distinct(removed) && |removed| == |old(runningProcesses)|
      ensures forall pid :: pid in Keys(old(runningProcesses)) <==> pid in removed
      ensures |when| == |removed| && |rows| == |removed|
      ensures forall j :: 0 <= j < |removed| ==>
                && rows[j] == Removal(env, maxChildsRuntime, removed[j], Lookup(old(runningProcesses), removed[j]).value, when[j])
                && (env.isRunning(removed[j], when[j]) ==> Overran(env.clock(when[j]), execTime, maxChildsRuntime))
      ensures killed == old(killed) + Kills(env, removed, when, |removed|)
      ensures Timed(when, old(ticks), ticks) && forall j :: 0 <= j < |when| ==> env.clock(when[j]) > execTime
    {
      dispatched := Dispatch();
      ghost var c1, r1, k1 := completedProcesses, runningProcesses, killed;
      assert r1 == old(runningProcesses) && k1 == old(killed);
      ghost var t1 := ticks;
      var execStart;
      execStart, removed, when, rows := Drain();
      execTime := execStart;
      assert Timed(when, old(ticks), ticks) by { assert old(ticks) <= t1; }
      completed := completedProcesses;
      AppendAssoc(old(completedProcesses), dispatched, rows);
      assert c1 == old(completedProcesses) + dispatched;
    }

    /**
     * One visit of the drain loop to worker `pid`: an exited worker is
     * removed with its exit row; a live one reads the clock and, past
     * `execTime` plus the limit, is killed and removed with a kill row;
     * otherwise nothing changes but the clock.
     */
    method Poll(pid: int, p: Process, execTime: int) returns (gone: bool)
      modifies this`runningProcesses, this`completedProcesses, this`killed, this`ticks
      ensures gone <==> !env.isRunning(pid, old(ticks)) || Overran(env.clock(old(ticks)), execTime, maxChildsRuntime)
      ensures ticks == old(ticks) + (if env.isRunning(pid, old(ticks)) then 1 else 0)
      ensures gone ==>
                && runningProcesses == Unset(old(runningProcesses), pid)
                && completedProcesses == old(completedProcesses) + [Removal(env, maxChildsRuntime, pid, p, old(ticks))]
      ensures !gone ==> runningProcesses == old(runningProcesses) && completedProcesses == old(completedProcesses)
      ensures killed == old(killed) + if gone && env.isRunning(pid, old(ticks)) then [pid] else []
    {
      if !env.isRunning(pid, ticks) {
        completedProcesses := completedProcesses + [ExitOutcome(env, pid, p)];
        runningProcesses := Unset(runningProcesses, pid);
        return true;
      }
      var now := Now();
      if now > execTime + maxChildsRuntime {
        killed := killed + [pid];
        completedProcesses := completedProcesses + [KillOutcome(pid, p, maxChildsRuntime)];
        runningProcesses := Unset(runningProcesses, pid);
        return true;
      }
      return false;
    }

    /** One visit of the drain loop: poll the `i`-th worker of the snapshot. */
    method DrainVisit(execTime: int, snapshot: seq<Entry<int, Process>>, i: nat,
                      ghost r0: seq<Entry<int, Process>>, ghost c0: seq<Outcome>, ghost k0: seq<int>,
                      ghost removed: seq<int>, ghost when: seq<nat>, ghost added: seq<Outcome>, ghost t0: nat)
      returns (ghost removed': seq<int>, ghost when': seq<nat>, ghost added': seq<Outcome>)
      requires ClockAdvances(env) && DistinctKeys(snapshot) && i < |snapshot|
      requires Drained(env, maxChildsRuntime, execTime, r0, runningProcesses, removed, when, added)
      requires completedProcesses == c0 + added && killed == k0 + Kills(env, removed, when, |removed|)
      requires Ahead(runningProcesses, snapshot, i) && Timed(when, t0, ticks)
      modifies this`runningProcesses, this`completedProcesses, this`killed, this`ticks
      ensures Drained(env, maxChildsRuntime, execTime, r0, runningProcesses, removed', when', added')
      ensures completedProcesses == c0 + added' && killed == k0 + Kills(env, removed', when', |removed'|)
      ensures Timed(when', t0, ticks)
      ensures Ahead(runningProcesses, snapshot, i + 1)
      ensures var d := execTime + maxChildsRuntime;
              && Gap(d, env.clock(ticks)) <= Gap(d, env.clock(old(ticks)))
              && |runningProcesses| <= |old(runningProcesses)|
              && (Gap(d, env.clock(ticks)) < Gap(d, env.clock(old(ticks)))
                  || |runningProcesses| < |old(runningProcesses)|)
    {
      ghost var before := runningProcesses;
      ghost var comp := completedProcesses;
      ghost var kill := killed;
      ghost var t := ticks;
      assert Lookup(runningProcesses, snapshot[i].0) == Some(snapshot[i].1);
      var gone := Poll(snapshot[i].0, snapshot[i].1, execTime);
      ghost var d := execTime + maxChildsRuntime;
      assert Gap(d, env.clock(ticks)) <= Gap(d, env.clock(t))
             && (!gone ==> Gap(d, env.clock(ticks)) < Gap(d, env.clock(t))) by {
        if env.isRunning(snapshot[i].0, t) {
          assert ticks == t + 1;
          GapStep(env, d, t);
        }
      }
      removed', when', added' := VisitStep(env, maxChildsRuntime, execTime, r0, c0, k0, removed, when, added,
                                           before, runningProcesses, comp, completedProcesses, kill, killed,
                                           snapshot[i].0, snapshot[i].1, t, gone);
      TimedStep(when, t0, t, ticks, gone);
      if gone { SnapshotAhead(before, snapshot, i); }
    }

    /**
     * One pass of the drain loop (the `foreach` at line 111): visit every
     * worker of a snapshot of the running queue once. The pass removes a
     * worker or moves the clock towards the deadline.
     */
    method DrainPass(execTime: int, ghost r0: seq<Entry<int, Process>>, ghost c0: seq<Outcome>, ghost k0: seq<int>,
                     ghost removed: seq<int>, ghost when: seq<nat>, ghost added: seq<Outcome>, ghost t0: nat)
      returns (ghost removed': seq<int>, ghost when': seq<nat>, ghost added': seq<Outcome>)
      requires ClockAdvances(env) && runningProcesses != []
      requires Drained(env, maxChildsRuntime, execTime, r0, runningProcesses, removed, when, added)
      requires completedProcesses == c0 + added && killed == k0 + Kills(env, removed, when, |removed|)
      requires Timed(when, t0, ticks)
      modifies this`runningProcesses, this`completedProcesses, this`killed, this`ticks
      ensures Drained(env, maxChildsRuntime, execTime, r0, runningProcesses, removed', when', added')
      ensures completedProcesses == c0 + added' && killed == k0 + Kills(env, removed', when', |removed'|)
      ensures Timed(when', t0, ticks)
      ensures var d := execTime + maxChildsRuntime;
              && Gap(d, env.clock(ticks)) <= Gap(d, env.clock(old(ticks)))
              && |runningProcesses| <= |old(runningProcesses)|
              && (Gap(d, env.clock(ticks)) < Gap(d, env.clock(old(ticks)))
                  || |runningProcesses| < |old(runningProcesses)|)
    {
      var snapshot := runningProcesses;
      ghost var d := execTime + maxChildsRuntime;
      ghost var g0 := Gap(d, env.clock(ticks));
      ghost var n0 := |runningProcesses|;
      removed', when', added' := removed, when, added;
      forall k | 0 <= k < |snapshot| ensures Lookup(runningProcesses, snapshot[k].0) == Some(snapshot[k].1) {
        LookupAt(snapshot, k);
      }
      assert Ahead(runningProcesses, snapshot, 0);
      for i := 0 to |snapshot|
        invariant Drained(env, maxChildsRuntime, execTime, r0, runningProcesses, removed', when', added')
        invariant completedProcesses == c0 + added'
        invariant killed == k0 + Kills(env, removed', when', |removed'|)
        invariant Ahead(runningProcesses, snapshot, i)
        invariant Gap(d, env.clock(ticks)) <= g0 && |runningProcesses| <= n0
        invariant i > 0 ==> Gap(d, env.clock(ticks)) < g0 || |runningProcesses| < n0
        invariant Timed(when', t0, ticks)
      {
        removed', when', added' := DrainVisit(execTime, snapshot, i, r0, c0, k0, removed', when', added', t0);
      }
    }

    /**
     * Lines 107-207 of `run()`: read the clock as the drain's start, then
     * poll every worker of the running queue, pass after pass, until the
     * queue is empty. Every pid of the queue is removed exactly once and
     * adds exactly one row: its exit row, or a kill row when it was still
     * alive after the limit. Each removal was checked after the start, in
     * the order of the removals.
     */
    method Drain() returns (execTime: int, ghost removed: seq<int>, ghost when: seq<nat>, ghost rows: seq<Outcome>)
      requires Valid() && ClockAdvances(env)
      modifies this`runningProcesses, this`completedProcesses, this`killed, this`ticks
      ensures execTime == env.clock(old(ticks))
      ensures Valid() && runningProcesses == []
      ensures PhpArray.Distinct(removed) && |removed| == |old(runningProcesses)|
      ensures forall pid :: pid in Keys(old(runningProcesses)) <==> pid in removed
      ensures |when| == |removed| && |rows| == |removed|
      ensures completedProcesses == old(completedProcesses) + rows
      ensures forall j :: 0 <= j < |removed| ==>
                && rows[j] == Removal(env, maxChildsRuntime, removed[j], Lookup(old(runningProcesses), removed[j]).value, when[j])
                && (env.isRunning(removed[j], when[j]) ==> Overran(env.clock(when[j]), execTime, maxChildsRuntime))
      ensures killed == old(killed) + Kills(env, removed, when, |removed|)
      ensures Timed(when, old(ticks) + 1, ticks) && forall j :: 0 <= j < |when| ==> env.clock(when[j]) > execTime
    {
      execTime := Now();
      ghost var r0 := runningProcesses;
      ghost var c0 := completedProcesses;
      ghost var k0 := killed;
      ghost var t0 := ticks;
      DrainedStart(env, maxChildsRuntime, execTime, r0);
      removed, when, rows := DrainLoop(execTime, r0, c0, k0, t0);
      DrainedAll(env, maxChildsRuntime, execTime, r0, removed, when, rows);
      TimedAfter(env, when, t0 - 1, ticks);
      assert r0 == old(runningProcesses) && c0 == old(completedProcesses) && k0 == old(killed);
    }

    /** The `while` of lines 109-207: passes over the running queue until it is empty. */
    method DrainLoop(execTime: int, ghost r0: seq<Entry<int, Process>>, ghost c0: seq<Outcome>, ghost k0: seq<int>,
                     ghost t0: nat)
      returns (ghost removed: seq<int>, ghost when: seq<nat>, ghost rows: seq<Outcome>)
      requires ClockAdvances(env) && Drained(env, maxChildsRuntime, execTime, r0, runningProcesses, [], [], [])
      requires completedProcesses == c0 && killed == k0 && ticks == t0
      modifies this`runningProcesses, this`completedProcesses, this`killed, this`ticks
      ensures runningProcesses == [] && Drained(env, maxChildsRuntime, execTime, r0, [], removed, when, rows)
      ensures completedProcesses == c0 + rows && killed == k0 + Kills(env, removed, when, |removed|)
      ensures Timed(when, t0, ticks)
    {
      removed, when, rows := [], [], [];
      while runningProcesses != []
        invariant Drained(env, maxChildsRuntime, execTime, r0, runningProcesses, removed, when, rows)
        invariant completedProcesses == c0 + rows
        invariant killed == k0 + Kills(env, removed, when, |removed|)
        invariant Timed(when, t0, ticks)
        decreases Gap(execTime + maxChildsRuntime, env.clock(ticks)), |runningProcesses|
      {
        removed, when, rows := DrainPass(execTime, r0, c0, k0, removed, when, rows, t0);
      }
    }
  }
}

# extender.framework job runners, modelled in Dafny

This project models the bookkeeping at the heart of the comodojo extender
framework:

- **`Jobs\Runner`** (`Jobs` module, class `Runner`) is the cooperative
  dispatch engine over a job table. Jobs go from queued to starting to
  completed, or from queued to aborted.
  - `add` queues a job whose task is known.
  - In sequential mode, `run` executes each queued job in place, between a
    start and a stop event.
  - In concurrent mode, `run` forks each job. A failed IPC set-up or fork
    aborts the job with the exception's message. While the fork limit is
    reached, `run` polls the workers with `catcher()`. It ends with
    `catcher_loop()`, which polls until nothing is running.
    A ghost trace of launch records keeps, for each job launched, the
    number of jobs running right after its launch. The fork limit is
    stated over these records.
  - One `catcher()` pass completes each exited worker with its decoded
    record, or with the read or decode failure. It kills and completes each
    live worker that is past its runtime budget.
  - `stop` and `kill` abort every queued job and signal the running workers.
- **The job table** (`JobTable`) models the `Jobs\Manager` collaborator. It
  is a map from uid to job and status, plus the insertion order. It has the
  four status transitions and the `queued()`, `running()` and `completed()`
  projections.
- **One `catcher()` step and pass** (`JobsCatcher`) are pure functions over
  the runner's observable state (`Store`): the job table, the event trace,
  the trace of signals and IPC calls, and the number of clock readings.
  Termination of the polling loops is proved from the clock advancing and
  every budget being finite.
- **The legacy `Job\JobsRunner`** (`Job` module, class `JobsRunner`) keeps
  its state in PHP arrays: `jobs`, `running_processes`,
  `completed_processes` and `forked_processes`.
  - `addJob` stores a job's description under a fresh uid.
  - `runSinglethread` runs a job in place and returns its result row.
  - The parent-side failure branches of `runMultithread` are modelled.
  - `run` dispatches every job and then drains the running queue. Each pid
    is removed exactly once: when it has exited, or when it is still alive
    past the time limit. Each removal appends one row.
- **`Components\Parameters`** (`Components` module) is a parameter store
  merged into with `array_replace`. PHP's ordered arrays are modelled in
  `PhpArray` as sequences of key/value pairs with distinct keys.

Everything outside the process becomes a fixed answer supplied as a
parameter. Each `Env` datatype lists these answers:

- process liveness per clock reading;
- IPC set-up and fork results;
- the decoded worker output;
- the task runner's result;
- uid generation;
- class and file checks;
- the k-th `microtime` reading.

Time is counted in integer clock readings (`ticks`). `ClockAdvances` states
that successive readings strictly increase.

## Model

| member | source | states |
|---|---|---|
| Components.Parameters.constructor | src/Comodojo/Extender/Components/Parameters.php:32-36 | the store starts as one merge of the given array into the empty store, which equals that array |
| Components.Parameters.Merge | src/Comodojo/Extender/Components/Parameters.php:38-42 | the new parameters are `array_replace` of the old ones by the given array, keys stay distinct, and the store itself is returned |
| PhpArray.ReplaceOverrides | src/Comodojo/Extender/Components/Parameters.php:40 | after a merge every key of the merged array maps to that array's value |
| PhpArray.ReplaceKeeps | src/Comodojo/Extender/Components/Parameters.php:40 | a key absent from the merged array keeps its previous value (or stays absent) |
| PhpArray.ReplaceKeys | src/Comodojo/Extender/Components/Parameters.php:40 | the keys after a merge are the old keys in their old positions followed by the new keys in the merged array's order |
| PhpArray.ReplaceKeySet | src/Comodojo/Extender/Components/Parameters.php:40 | a key is present after a merge exactly when it was present before or is in the merged array |
| PhpArray.ReplaceEmpty | src/Comodojo/Extender/Components/Parameters.php:40 | merging an empty array changes nothing |
| PhpArray.ReplaceIdempotent | src/Comodojo/Extender/Components/Parameters.php:40 | merging the same array twice equals merging it once |
| PhpArray.ReplaceDistinct | src/Comodojo/Extender/Components/Parameters.php:40 | a merge keeps keys distinct |
| PhpArray.FromArray | src/Comodojo/Extender/Components/Parameters.php:32-36 | merging an array with distinct keys into the empty array gives that array |
| PhpArray.LookupPut | src/Job/JobsRunner.php:53-60 | after `$a[$k] = $v` key k maps to v and every other key is unchanged |
| PhpArray.KeysPut | src/Job/JobsRunner.php:53-60 | assigning a new key appends it to the key order; assigning an existing key keeps the order |
| PhpArray.LookupUnset | src/Job/JobsRunner.php:162 | after `unset($a[$k])` key k is absent and every other key is unchanged |
| PhpArray.UnsetDistinct | src/Job/JobsRunner.php:162 | `unset` removes exactly that key, shrinking the array by one when the key was present |
| JobTable.IsQueued | src/Comodojo/Extender/Jobs/Runner.php:120 | a queued job enters the table last in order with status Queued, and the table stays well formed |
| JobTable.SetStatus | src/Comodojo/Extender/Jobs/Runner.php:133-170 | a status transition changes that job's status only; the order, the uids and every job record stay |
| JobTable.Select | src/Comodojo/Extender/Jobs/Runner.php:126 | a projection holds exactly the uids of the table whose status is of the selected kind, as a subsequence of the table order |
| JobTable.CompletedEntries | src/Comodojo/Extender/Jobs/Runner.php:187 | `array_values(completed())` lists one completed entry per completed uid |
| JobTable.SelectShrinks | src/Comodojo/Extender/Jobs/Runner.php:311-383 | when no job enters a status kind, its projection cannot grow |
| JobTable.SelectGrowsByOne | src/Comodojo/Extender/Jobs/Runner.php:170 | changing one job's status grows a projection by at most one, and by exactly one when the job enters that kind (a queued job marked as starting adds one running job) |
| Jobs.Runner.constructor | src/Comodojo/Extender/Jobs/Runner.php:66-102 | a new runner has an empty job table, empty traces and no clock readings |
| Jobs.Runner.Add | src/Comodojo/Extender/Jobs/Runner.php:110-122 | the result is true exactly when the task is in the tasks table; then the job is appended to the queue, otherwise nothing changes |
| Jobs.Runner.Forker | src/Comodojo/Extender/Jobs/Runner.php:230-262 | an IPC set-up failure hangs the channel and fails with its message; a fork answering -1 fails with "Unable to fork job, aborting"; otherwise the child pid is returned and its niceness is set if the job has one |
| JobsCatcher.ForkFailure | src/Comodojo/Extender/Jobs/Runner.php:236-257 | the exception `forker` raises: the IPC error if set-up fails, the fixed fork message if the fork fails, none otherwise |
| JobsCatcher.ForkActions | src/Comodojo/Extender/Jobs/Runner.php:236-264 | the actions `forker` records: a hang when IPC set-up fails, none when the fork fails, the child's niceness when the job has one |
| Jobs.Runner.RunHere | src/Comodojo/Extender/Jobs/Runner.php:128-149 | a job run in place ends completed with the task runner's success, result and wid, between one Start and one Stop event; no other job changes |
| Jobs.Runner.RunAllHere | src/Comodojo/Extender/Jobs/Runner.php:126-149 | sequentially, exactly the queued jobs complete with the task runner's answer, in queue order, with one bracket of events each |
| Jobs.Runner.RunNext | src/Comodojo/Extender/Jobs/Runner.php:128-149 | one turn of the sequential loop runs the next queued job in place, extends the run prefix by it and appends its Start and Stop events, with no signal or IPC action |
| Jobs.Runner.RunQueue | src/Comodojo/Extender/Jobs/Runner.php:126-149 | the sequential `foreach` runs every uid of the queued list in place and emits one Start and Stop pair per uid, in list order |
| Jobs.RunInline | src/Comodojo/Extender/Jobs/Runner.php:137-144 | a job run in place is completed with the task runner's success, result and wid |
| Jobs.BracketsAt | src/Comodojo/Extender/Jobs/Runner.php:128-147 | in a sequential run the j-th job's Start and Stop events are adjacent, at positions 2j and 2j+1 |
| Jobs.BracketsStarts | src/Comodojo/Extender/Jobs/Runner.php:126-147 | in a sequential run the jobs start exactly in queue order |
| Jobs.Runner.Launch | src/Comodojo/Extender/Jobs/Runner.php:128-170 | a fork failure aborts the job with the exception's message, emits its Start and Stop events, leaves the running count and the clock unchanged; otherwise the job is starting with the child pid at the clock reading taken, one Start event is emitted and the count grows by exactly one; the fork's hang or renice actions are recorded; the launch record holds the running count after the launch; no other job changes |
| Jobs.Runner.WaitForSlot | src/Comodojo/Extender/Jobs/Runner.php:172-178 | the admission wait ends, with fewer than `max_childs` jobs running, having only completed started jobs, never adding a running job and emitting no Start event |
| Jobs.Runner.LaunchOne | src/Comodojo/Extender/Jobs/Runner.php:151-178 | after one concurrent dispatch the job has been forked or aborted and has started in the event trace; its launch record is the running count before it plus one exactly when the fork succeeded; a failed fork adds only its Start and Stop events, reads no clock and changes no other job, so no catcher pass follows it; below the fork limit that count is at most `max_childs` and the count left after the wait is below it |
| Jobs.Runner.LaunchNext | src/Comodojo/Extender/Jobs/Runner.php:126-183 | one turn of the concurrent loop extends the launched prefix of the queue, the launch records and the start order by the next queued job, keeping every record within `max_childs` when the limit held |
| Jobs.Runner.LaunchAll | src/Comodojo/Extender/Jobs/Runner.php:126-183 | the concurrent loop aborts every queued job whose fork fails and starts the others, each of which is still running or completed as `catcher()` completes it; there is one launch record per queued job, in queue order, and the jobs start in queue order; when fewer than `max_childs` jobs run on entry, no launch leaves more than `max_childs` running |
| Jobs.Runner.CatcherLoop | src/Comodojo/Extender/Jobs/Runner.php:295-303 | `catcher_loop` terminates with no job running; every job that was running is completed either with its worker's decoded record (or the transfer failure) or as killed for its runtime, nothing else changed, and no Start event is emitted |
| Jobs.Runner.RunConcurrently | src/Comodojo/Extender/Jobs/Runner.php:126-185 | concurrently, every queued job ends aborted with its fork failure or, when forked, completed with its worker's decoded record (or the transfer failure) or as killed for its runtime; no job is left running, one launch record per queued job in queue order, jobs start in queue order, and no launch exceeds `max_childs` when the limit held on entry |
| Jobs.Runner.Run | src/Comodojo/Extender/Jobs/Runner.php:124-189 | `run` leaves no job queued and returns the completed entries; sequentially every queued job is completed with the task runner's answer between its own Start and Stop events and no launch is recorded; concurrently the outcomes and launch records are as above; in both modes the jobs start in queue order |
| Jobs.Runner.CatchOne | src/Comodojo/Extender/Jobs/Runner.php:311-381 | one iteration of `catcher()` changes the runner's state exactly as the step function `CatchJob` |
| Jobs.Runner.CatchNext | src/Comodojo/Extender/Jobs/Runner.php:311-383 | the pass over a prefix of the snapshot extends by one job |
| Jobs.Runner.Catcher | src/Comodojo/Extender/Jobs/Runner.php:309-385 | `catcher()` changes the state exactly as the pass function over the snapshot of running jobs taken at entry |
| JobsCatcher.Output | src/Comodojo/Extender/Jobs/Runner.php:317-337 | a decoded worker record is taken as is; a read or decode failure gives success false, the exception message and a null wid |
| JobsCatcher.Budget | src/Comodojo/Extender/Jobs/Runner.php:352 | a job's budget is its own maxtime when it has one, else the configured max_runtime |
| JobsCatcher.Deadline | src/Comodojo/Extender/Jobs/Runner.php:352-354 | a started job's deadline is its start timestamp plus its budget |
| JobsCatcher.CatchJob | src/Comodojo/Extender/Jobs/Runner.php:311-381 | one step leaves a uid that is not a started job of the table alone; otherwise it keeps the table's order and uids, emits at most one Stop event and reads the clock at most once |
| JobsCatcher.Pass | src/Comodojo/Extender/Jobs/Runner.php:311-383 | a pass keeps the table's order and uids, reads the clock at most once per snapshot job and emits at most one event per snapshot job |
| JobsCatcher.CatchJobOutcome | src/Comodojo/Extender/Jobs/Runner.php:311-381 | an exited worker completes with its output; a live worker completes as killed with "Job killed due to max runtime reached" exactly when the clock is past start plus budget (the job's maxtime, else max_runtime), and is otherwise unchanged; only that job changes; a Stop event exactly when it completes |
| JobsCatcher.CatchJobEffect | src/Comodojo/Extender/Jobs/Runner.php:311-381 | one step keeps the table well formed, only completes a started job, and never rewinds the clock |
| JobsCatcher.PassFrame | src/Comodojo/Extender/Jobs/Runner.php:311-383 | a pass only completes started jobs of its snapshot and never touches any other entry |
| JobsCatcher.PassEvents | src/Comodojo/Extender/Jobs/Runner.php:345-377 | a pass emits exactly one Stop event per job it completes, in snapshot order |
| JobsCatcher.PassStarts | src/Comodojo/Extender/Jobs/Runner.php:345-377 | a pass emits no Start event |
| JobsCatcher.LaunchStarts | src/Comodojo/Extender/Jobs/Runner.php:128-162 | a launch, failed or not, adds exactly its uid to the start order |
| JobsCatcher.ProgressedRunning | src/Comodojo/Extender/Jobs/Runner.php:311-383 | completing started jobs never adds a running job |
| JobsCatcher.PassProgress | src/Comodojo/Extender/Jobs/Runner.php:297-301 | each pass while jobs run either ends one job or moves the clock strictly closer to the latest deadline, so the polling loops terminate |
| JobsCatcher.PassMonotone | src/Comodojo/Extender/Jobs/Runner.php:297-301 | a pass never adds a running job, keeps every deadline below the horizon and never moves the clock away from it |
| JobsCatcher.HorizonBounded | src/Comodojo/Extender/Jobs/Runner.php:352-354 | every started job has a finite deadline below the horizon |
| Jobs.Runner.AbortQueued | src/Comodojo/Extender/Jobs/Runner.php:387-395 | every job queued at entry is aborted with the message, in queue order; traces and clock unchanged |
| JobTable.AbortAll | src/Comodojo/Extender/Jobs/Runner.php:389-393 | aborting a list of uids keeps the table well formed, its order, its uids and every job record |
| JobTable.AbortAllEffect | src/Comodojo/Extender/Jobs/Runner.php:389-393 | aborting a list of uids sets exactly those jobs to Aborted(message) and leaves every other status alone |
| Jobs.Runner.AbortNext | src/Comodojo/Extender/Jobs/Runner.php:391 | one iteration of the `abortQueued` loop aborts the next uid of the queued list, extending the aborted prefix by one |
| JobTable.AbortQueuedEffect | src/Comodojo/Extender/Jobs/Runner.php:387-395 | after `abortQueued` no job is queued, exactly the previously queued jobs are aborted, and the running jobs are the same |
| Jobs.Runner.SignalRunning | src/Comodojo/Extender/Jobs/Runner.php:206-210 | one signal per running worker, in table order, without changing any status |
| Jobs.SignalsAt | src/Comodojo/Extender/Jobs/Runner.php:206-210 | the i-th signal goes to the worker of the i-th running job: `term` with the lagger timeout, or `kill` |
| Jobs.Runner.Stop | src/Comodojo/Extender/Jobs/Runner.php:198-212 | queued jobs are aborted with "Stop signal received, aborting queued jobs", then every running worker gets the graceful signal |
| Jobs.Runner.Kill | src/Comodojo/Extender/Jobs/Runner.php:214-228 | queued jobs are aborted with "Kill signal received, aborting queued jobs", then every running worker gets the forceful signal |
| Job.JobsRunner.constructor | src/Job/JobsRunner.php:11-33 | a new runner has no jobs and no processes, keeps the given runtime limit, and is single-threaded |
| Job.JobsRunner.AddJob | src/Job/JobsRunner.php:35-77 | a fresh uid is drawn; the job is refused (false, jobs unchanged) exactly when it is not loadable; an include adds the classes the file declares; otherwise its description is stored under the uid, last when the uid is new, and the uid is returned |
| Job.Loadable | src/Job/JobsRunner.php:45-51 | a job is loadable when its class exists, was declared by an earlier include, or its file exists and can be included; with a missing or unincludable file, exactly when the class is already known |
| Job.SingleOutcome | src/Job/JobsRunner.php:232-253 | the single-threaded row: the task's success, timestamp and result when `start()` returns; success false, null end and the exception message when it throws |
| Job.JobsRunner.RunSinglethread | src/Job/JobsRunner.php:213-255 | the returned row is the single-threaded row of the job, started at the clock reading taken on entry |
| Job.MultiRows | src/Job/JobsRunner.php:279-325 | a socket pair failure ("No IPC communication, exiting - " and the error) or a failed fork ("Could not fok job") adds one failure row with null pid, the job's name and id and two clock readings; a successful fork adds none |
| Job.JobsRunner.RunMultithread | src/Job/JobsRunner.php:257-330 | the parent appends that failure row (if any), reads the clock once more per row, and always hands back a null pid, so nothing enters the running queue |
| Job.JobsRunner.Track | src/Job/JobsRunner.php:87-93 | a launch with a pid enters the running queue and the forked list; one without changes nothing |
| Job.JobsRunner.DispatchOne | src/Job/JobsRunner.php:81-101 | one iteration of the dispatch loop adds the row of that job (single-threaded) or only failure rows (multi-threaded) |
| Job.JobsRunner.DispatchInline | src/Job/JobsRunner.php:97-99 | the single-threaded branch appends exactly the job's row |
| Job.JobsRunner.DispatchForked | src/Job/JobsRunner.php:83-93 | the multi-threaded branch appends at most one failure row and leaves the running queue unchanged |
| Job.JobsRunner.Dispatch | src/Job/JobsRunner.php:81-103 | single-threaded, exactly one row per job is appended, in `jobs` insertion order |
| Job.SinglesAt | src/Job/JobsRunner.php:81-101 | the i-th single-threaded row belongs to the i-th job, started at the i-th clock reading |
| Job.ExitOutcome | src/Job/JobsRunner.php:117-158 | an exited worker's row: null pid, failure and the "socket_read() failed. Reason: " message when the read fails, otherwise the decoded success, timestamp and result |
| Job.KillOutcome | src/Job/JobsRunner.php:189-197 | a killed worker's row: its pid, failure, a null end and a message naming the limit |
| Job.Removal | src/Job/JobsRunner.php:117-201 | the row of a removed pid, exit or kill, carries the worker's name, start timestamp and job id from `running_processes` |
| Job.JobsRunner.Poll | src/Job/JobsRunner.php:117-201 | one visit removes the pid exactly when it has exited or is past the drain start plus the limit, appending its row and recording a kill |
| Job.JobsRunner.DrainVisit | src/Job/JobsRunner.php:110-203 | one visit keeps the drain invariant: each pid still queued keeps its entry, each removed pid was removed once with its own row |
| Job.JobsRunner.DrainPass | src/Job/JobsRunner.php:110-205 | one `foreach` pass over a snapshot of the running queue keeps the drain invariant |
| Job.JobsRunner.Drain | src/Job/JobsRunner.php:107-207 | `exec_time` is the clock reading taken on entry; the drain loop ends with an empty running queue; every pid of the queue is removed exactly once and adds exactly one row: its exit row, or its kill row when still alive past the limit; every removal was checked at a later reading than `exec_time`, in removal order |
| Job.JobsRunner.DrainLoop | src/Job/JobsRunner.php:109-207 | the `while` ends with an empty running queue, the drain invariant holding for all removals, their rows and kills appended, and removal readings in order |
| Job.TimedAfter | src/Job/JobsRunner.php:107-170 | a removal checked after the `exec_time` reading sees a strictly later time |
| Job.Overran | src/Job/JobsRunner.php:170 | with a non-negative limit, a worker past the intended limit is also past it as written; with a zero limit the two tests agree |
| Job.DrainedAll | src/Job/JobsRunner.php:109-207 | when the running queue is empty, the removed pids are exactly the pids the queue held |
| Job.GapStep | src/Job/JobsRunner.php:168-170 | each clock reading brings a live worker closer to the limit, so the drain loop terminates |
| Job.JobsRunner.Run | src/Job/JobsRunner.php:79-211 | `run` returns `completed_processes` grown by the dispatch rows and then one drain row per pid of the running queue, and ends with that queue empty; every removal is checked after the drain's `exec_time`, in removal order |
| Job.OverranAsWrittenIgnoresLimit | src/Job/JobsRunner.php:170 | a live worker is killed as written one reading after the drain starts, whatever the configured limit |
| Job.KillResultAsWrittenDropsLimit | src/Job/JobsRunner.php:195 | the kill message as written never shows the limit |

## Left out

- The operating system and PHP runtime are not modelled: `pcntl_fork`, `pcntl_waitpid`, `posix_kill` and the `ProcessTools` signals, sockets and `Ipc`, `serialize` and `unserialize`, `include` and `class_exists`. Their answers are parameters of `Env`.
- Job.JobsRunner.AddJob: `class_exists` is a fixed answer for the classes loaded before the runner exists, plus the classes that earlier includes declared. Including a file that redeclares a loaded class is a PHP fatal error and is not modelled.
- Jobs.Runner.Catcher: the worker's result payload is narrowed to a string. An `unserialize` that returns false, rather than throwing, is folded into the `Transfer` answer, which is either a decoded record or a failure message.
- Signals sent by `stop`, `kill` and the catchers are recorded as actions. Whether a signal succeeded only changes a log line, so it is not modelled.
- The child side of `forker` and of `runMultithread` runs in another process and is not modelled. Its only effect on the parent is the record the parent later reads back.
- `microtime` is a strictly increasing sequence of integer readings. Float arithmetic is not modelled, and neither is the string that `runMultithread` gets from `microtime()` without `true`.
- `socket_read`'s `max_result_bytes_in_multithread` truncation is not modelled: a read either decodes or fails.
- Job.ExitOutcome: the row PHP pushes when `unserialize` returns false (the worker's pid with null success, timestamp and result) is not modelled; the decode either yields a full record or the read fails.
- The `Jobs\Manager`, `Tasks\Runner`, `TasksTable`, `Configuration` and `Validator` classes are not part of this model. The job table is an abstract map. The configuration is a validated `Config` value. The task runner and the tasks table are oracles.
- Jobs.Runner.Add: requires a uid not yet in the table, since the Manager's uid handling is not part of this model.
- Jobs.Runner.Run: the two events each start and stop emit (`JobEvent` and `JobStatusEvent`) are modelled as one Start and one Stop event, and event payloads are not modelled.
- The commented-out `active` flag of `run` is not modelled.
- Job.JobsRunner.RunMultithread: the function has no return after a fork, so the caller always sees a null pid. As a result, no forked pid ever enters `running_processes`. The drain loop is therefore proved for any starting `running_processes`.
- Job.JobsRunner.Run: `$this->multithread` is initialised false and never assigned, so only the single-threaded path is reachable from a constructed runner. The multi-threaded branch is modelled with `multithread` as a constant.
- Line 105 of `src/Job/JobsRunner.php` counts an undefined `$forked` for a log line only, so it is not modelled.
- Job.KillOutcome: line 194 stores an undefined `$t` as the end timestamp. That is PHP's null, so the row's end is None.
- `ipc_array` bookkeeping is not modelled: the per-job socket pairs and their closing.
- `getJobUid()` is an oracle, so its values are not assumed distinct.
- Logging is not modelled, nor `__destruct`, `free()`, the chain expansion of `Task\Manager`, `src/Extender.php`, the daemon, the schedule worker and the socket commands.

## Findings

| source | as written | input that shows it | evidently intended | confidence | as-written member | corrected member |
|---|---|---|---|---|---|---|
| src/Job/JobsRunner.php:170 | the timeout test reads `$this->max_childs_run_time`, a misspelling of the `max_childs_runtime` property, so the limit is null and any live worker is killed as soon as the clock passes the drain's start | limit 600, drain started at reading 0, worker alive at reading 1: killed | kill only when the clock is past the drain's start plus `max_childs_runtime` | not executed | Job.OverranAsWrittenIgnoresLimit | Job.JobsRunner.Drain |
| src/Job/JobsRunner.php:195 | the kill row's message renders the same misspelled property, which is empty | any killed worker: the message ends in "(>)" | the message names the configured limit | not executed | Job.KillResultAsWrittenDropsLimit | Job.KillOutcome |

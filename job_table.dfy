/**
 * The job table that the dispatch engine drives (the Jobs\Manager
 * collaborator, whose source is not part of this model). It is modelled
 * abstractly as a map uid -> (job, status) together with the insertion
 * order of the uids; the four status transitions and the three
 * projections `queued()`, `running()` and `completed()` are functions of it.
 */
module JobTable {
  import opened Wrappers

  type Uid = nat

  /** A job as the runner sees it: the request fields plus the optional niceness and runtime budget. */
  datatype Job = Job(
    uid: Uid,
    name: string,
    task: string,
    id: int,
    parameters: seq<(string, string)>,
    niceness: Option<int>,
    maxtime: Option<int>)

  /** Life cycle: Queued -> Starting -> Completed, or Queued -> Aborted. */
  datatype Status =
    | Queued
    | Starting(pid: int, start: int)
    | Completed(success: bool, result: string, wid: Option<string>)
    | Aborted(message: string)
  {
    predicate Terminal() {
      Completed? || Aborted?
    }

    function Kind(): Kind {
      match this
      case Queued => QueuedKind
      case Starting(_, _) => StartingKind
      case Completed(_, _, _) => CompletedKind
      case Aborted(_) => AbortedKind
    }
  }

  /** The discriminator of a status, used to select one projection of the table. */
  datatype Kind = QueuedKind | StartingKind | CompletedKind | AbortedKind

  datatype Entry = Entry(job: Job, status: Status)

  /** An ordered map uid -> entry: `entries` holds the records, `order` their insertion order. */
  datatype Table = Table(entries: map<Uid, Entry>, order: seq<Uid>)

  ghost predicate Distinct(s: seq<Uid>) {
    forall i, j :: 0 <= i < j < |s| ==> s[i] != s[j]
  }

  ghost predicate Valid(t: Table) {
    && Distinct(t.order)
    && (forall u :: u in t.entries <==> u in t.order)
    && (forall u :: u in t.entries ==> t.entries[u].job.uid == u)
  }

  /** The same jobs, in the same order, whatever their statuses. */
  ghost predicate SameJobs(t1: Table, t2: Table) {
    && t2.order == t1.order
    && t2.entries.Keys == t1.entries.Keys
    && forall u :: u in t1.entries ==> t2.entries[u].job == t1.entries[u].job
  }

  function Empty(): (t: Table)
    ensures Valid(t) && t.order == []
  {
    Table(map[], [])
  }

  // ---------------------------------------------------------------------
  // Transitions

  /** `isQueued($job)`: the job enters the table, last in order, as Queued. */
  function IsQueued(t: Table, job: Job): (r: Table)
    requires Valid(t) && job.uid !in t.entries
    ensures Valid(r)
    ensures r.order == t.order + [job.uid]
    ensures r.entries == t.entries[job.uid := Entry(job, Queued)]
  {
    Table(t.entries[job.uid := Entry(job, Queued)], t.order + [job.uid])
  }

  /** Replace the status of a job; its position and its job record stay. */
  function SetStatus(t: Table, uid: Uid, st: Status): (r: Table)
    requires uid in t.entries
    ensures r.order == t.order && r.entries.Keys == t.entries.Keys
    ensures Valid(t) ==> Valid(r)
    ensures SameJobs(t, r)
    ensures r.entries[uid].status == st
    ensures forall v :: v in t.entries && v != uid ==> r.entries[v] == t.entries[v]
  {
    Table(t.entries[uid := t.entries[uid].(status := st)], t.order)
  }

  /** `isStarting($uid, $pid)`, stamping the start time read from the clock. */
  function IsStarting(t: Table, uid: Uid, pid: int, start: int): Table
    requires uid in t.entries
  {
    SetStatus(t, uid, Starting(pid, start))
  }

  /** `isCompleted($uid, $success, $result, $wid)`. */
  function IsCompleted(t: Table, uid: Uid, success: bool, result: string, wid: Option<string>): Table
    requires uid in t.entries
  {
    SetStatus(t, uid, Completed(success, result, wid))
  }

  /** `isAborted($uid, $message)`. */
  function IsAborted(t: Table, uid: Uid, message: string): Table
    requires uid in t.entries
  {
    SetStatus(t, uid, Aborted(message))
  }

  // ---------------------------------------------------------------------
  // Projections

  /** `a` is `b` with some elements left out, the others in their order in `b`. */
  predicate Subsequence(a: seq<Uid>, b: seq<Uid>)
    decreases |b|
  {
    || a == []
    || (b != [] && ((a[0] == b[0] && Subsequence(a[1..], b[1..])) || Subsequence(a, b[1..])))
  }

  /** The uids of `order` whose status is of kind `k`, in order. */
  function Select(entries: map<Uid, Entry>, order: seq<Uid>, k: Kind): (r: seq<Uid>)
    ensures forall u :: u in r <==> u in order && u in entries && entries[u].status.Kind() == k
    ensures |r| <= |order|
    ensures Subsequence(r, order)
  {
    if order == [] then []
    else
      var rest := Select(entries, order[1..], k);
      if order[0] in entries && entries[order[0]].status.Kind() == k then [order[0]] + rest else rest
  }

  /** `queued()`. */
  function QueuedUids(t: Table): seq<Uid> {
    Select(t.entries, t.order, QueuedKind)
  }

  /** `running()`. */
  function RunningUids(t: Table): seq<Uid> {
    Select(t.entries, t.order, StartingKind)
  }

  /** `completed()`, as the list of completed entries in table order. */
  function CompletedEntries(t: Table): (r: seq<Entry>)
    requires forall u :: u in t.order ==> u in t.entries
    ensures |r| == |Select(t.entries, t.order, CompletedKind)|
    ensures forall i :: 0 <= i < |r| ==> r[i].status.Completed?
  {
    var uids := Select(t.entries, t.order, CompletedKind);
    seq(|uids|, i requires 0 <= i < |uids| => t.entries[uids[i]])
  }

  // ---------------------------------------------------------------------
  // Facts about projections

  /** A projection of a table without repeated uids has no repeated uids. */
  lemma {:induction false} SelectDistinct(entries: map<Uid, Entry>, order: seq<Uid>, k: Kind)
    requires Distinct(order)
    ensures Distinct(Select(entries, order, k))
  {
    if order != [] {
      assert Distinct(order[1..]) by {
        forall i, j | 0 <= i < j < |order| - 1 ensures order[1..][i] != order[1..][j] {
          assert order[1..][i] == order[i + 1] && order[1..][j] == order[j + 1];
        }
      }
      assert order[0] !in order[1..] by {
        forall i | 0 <= i < |order| - 1 ensures order[1..][i] != order[0] {
          assert order[1..][i] == order[i + 1];
        }
      }
      SelectDistinct(entries, order[1..], k);
    }
  }

  /**
   * When no uid of `order` gains kind `k` from `e1` to `e2`, the projection
   * cannot grow; when one of them loses kind `k`, it strictly shrinks.
   */
  lemma {:induction false} SelectShrinks(e1: map<Uid, Entry>, e2: map<Uid, Entry>, order: seq<Uid>, k: Kind)
    requires forall u :: u in order ==> u in e1 && u in e2
    requires forall u :: u in order && e2[u].status.Kind() == k ==> e1[u].status.Kind() == k
    ensures |Select(e2, order, k)| <= |Select(e1, order, k)|
    ensures (exists u :: u in order && e1[u].status.Kind() == k && e2[u].status.Kind() != k) ==>
              |Select(e2, order, k)| < |Select(e1, order, k)|
  {
    if order != [] {
      SelectShrinks(e1, e2, order[1..], k);
      if exists u :: u in order && e1[u].status.Kind() == k && e2[u].status.Kind() != k {
        var u :| u in order && e1[u].status.Kind() == k && e2[u].status.Kind() != k;
        if u != order[0] {
          assert u in order[1..];
        }
      }
    }
  }

  /** Changing the status of one uid, present once in `order`, grows a projection by at most one. */
  lemma {:induction false} SelectGrowsByOne(e1: map<Uid, Entry>, e2: map<Uid, Entry>, order: seq<Uid>, k: Kind, uid: Uid)
    requires Distinct(order)
    requires forall u :: u in order ==> u in e1 && u in e2
    requires forall u :: u in order && u != uid ==> e2[u].status.Kind() == e1[u].status.Kind()
    ensures |Select(e2, order, k)| <= |Select(e1, order, k)| + 1
    ensures uid in order && e1[uid].status.Kind() != k && e2[uid].status.Kind() == k ==>
              |Select(e2, order, k)| == |Select(e1, order, k)| + 1
  {
    if order != [] {
      SelectDistinct(e1, order, k);
      assert Distinct(order[1..]) by {
        forall i, j | 0 <= i < j < |order| - 1 ensures order[1..][i] != order[1..][j] {
          assert order[1..][i] == order[i + 1] && order[1..][j] == order[j + 1];
        }
      }
      assert order[0] !in order[1..] by {
        forall i | 0 <= i < |order| - 1 ensures order[1..][i] != order[0] {
          assert order[1..][i] == order[i + 1];
        }
      }
      if order[0] == uid {
        SelectSame(e1, e2, order[1..], k);
      } else {
        SelectGrowsByOne(e1, e2, order[1..], k, uid);
      }
    }
  }

  /** A projection depends only on which statuses are of its kind. */
  lemma {:induction false} SelectSame(e1: map<Uid, Entry>, e2: map<Uid, Entry>, order: seq<Uid>, k: Kind)
    requires forall u :: u in order ==> u in e1 && u in e2
    requires forall u :: u in order ==> (e2[u].status.Kind() == k <==> e1[u].status.Kind() == k)
    ensures Select(e2, order, k) == Select(e1, order, k)
  {
    if order != [] {
      SelectSame(e1, e2, order[1..], k);
    }
  }

  /** A projection is empty when no uid of the order has that kind. */
  lemma {:induction false} SelectEmpty(entries: map<Uid, Entry>, order: seq<Uid>, k: Kind)
    requires forall u :: u in order && u in entries ==> entries[u].status.Kind() != k
    ensures Select(entries, order, k) == []
  {
    if order != [] {
      SelectEmpty(entries, order[1..], k);
    }
  }

  // ---------------------------------------------------------------------
  // Aborting

  /** Every uid of the list has a record in the table. */
  ghost predicate InTable(t: Table, uids: seq<Uid>) {
    forall u :: u in uids ==> u in t.entries
  }

  /** `isAborted($uid, $message)` for each of the first `n` uids of `uids`, in order. */
  function AbortAll(t: Table, uids: seq<Uid>, n: nat, message: string): (r: Table)
    requires n <= |uids|
    requires InTable(t, uids)
    ensures r.order == t.order && r.entries.Keys == t.entries.Keys
    ensures Valid(t) ==> Valid(r)
    ensures SameJobs(t, r)
  {
    if n == 0 then t
    else IsAborted(AbortAll(t, uids, n - 1, message), uids[n - 1], message)
  }

  /** Aborting a list of uids sets exactly those jobs to Aborted(message). */
  lemma {:induction false} AbortAllEffect(t: Table, uids: seq<Uid>, n: nat, message: string)
    requires n <= |uids|
    requires InTable(t, uids)
    ensures var r := AbortAll(t, uids, n, message);
            forall u :: u in t.entries ==>
              r.entries[u].status == (if u in uids[..n] then Aborted(message) else t.entries[u].status)
  {
    if n > 0 {
      var x := uids[n - 1];
      assert uids[..n] == uids[..n - 1] + [x];
      AbortAllEffect(t, uids, n - 1, message);
      forall u | u in t.entries
        ensures AbortAll(t, uids, n, message).entries[u].status
                == (if u in uids[..n] then Aborted(message) else t.entries[u].status)
      {
        assert u in uids[..n] <==> u in uids[..n - 1] || u == x;
      }
    }
  }

  /**
   * `abortQueued` leaves no job queued, aborts exactly the jobs that were
   * queued, and does not change which jobs are running.
   */
  lemma AbortQueuedEffect(t: Table, message: string)
    requires Valid(t)
    ensures var r := AbortAll(t, QueuedUids(t), |QueuedUids(t)|, message);
            && Valid(r) && SameJobs(t, r)
            && (forall u :: u in t.entries ==>
                  r.entries[u].status == (if t.entries[u].status.Queued? then Aborted(message) else t.entries[u].status))
            && QueuedUids(r) == []
            && RunningUids(r) == RunningUids(t)
  {
    var q := QueuedUids(t);
    forall u | u in t.entries ensures u in q <==> t.entries[u].status.Queued? {
      assert u in t.order;
    }
    var r := AbortAll(t, q, |q|, message);
    assert forall u :: u in t.entries ==>
             r.entries[u].status == (if u in q then Aborted(message) else t.entries[u].status)
    by {
      AbortAllEffect(t, q, |q|, message);
      assert q[..|q|] == q;
    }
    AbortedProjections(t, r, message);
  }

  /** A table whose queued jobs, and only those, became aborted has no queued job and the same running jobs. */
  lemma AbortedProjections(t: Table, r: Table, message: string)
    requires r.order == t.order && r.entries.Keys == t.entries.Keys
    requires forall u :: u in t.entries ==>
               r.entries[u].status == (if t.entries[u].status.Queued? then Aborted(message) else t.entries[u].status)
    requires Valid(t)
    ensures QueuedUids(r) == []
    ensures RunningUids(r) == RunningUids(t)
  {
    SelectSame(t.entries, r.entries, t.order, StartingKind);
    NoneQueued(r);
  }

  lemma NoneQueued(t: Table)
    requires forall u :: u in t.entries ==> !t.entries[u].status.Queued?
    ensures QueuedUids(t) == []
  {
    SelectEmpty(t.entries, t.order, QueuedKind);
  }
}

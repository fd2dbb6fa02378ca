/** The launcher's task queue and what its two tasks do to the job table
    (src/ClusterManager/job_launcher.py, PythonLauncher). */
module Launcher {
  import opened Jobs

  /** How submit_job_impl ends: earlier pods still exist, the job type or its pods are invalid, an exception
      (with the raised retry counter), or the pods were created. */
  datatype SubmitResult = PodsRemain | Invalid | Raised(retries: nat) | Created

  /** A queued call together with what the cluster will answer to it. */
  datatype Task = SubmitTask(id: JobId, result: SubmitResult) | KillTask(id: JobId, desired: Status, errors: bool)

  function SubmitStatus(before: Status, result: SubmitResult): Status {
    match result
    case PodsRemain => before
    case Invalid => Error
    case Raised(retries) => if retries >= 5 then Error else before
    case Created => Scheduling
  }

  /** A kill that meets errors raises while encoding them and leaves the status as it was. */
  function KillStatus(before: Status, desired: Status, errors: bool): Status {
    if errors then before else desired
  }

  function TaskStatus(before: Status, task: Task): Status {
    match task
    case SubmitTask(_, result) => SubmitStatus(before, result)
    case KillTask(_, desired, errors) => KillStatus(before, desired, errors)
  }

  /** The table after the tasks, taken in order; tasks of unknown jobs update no row. */
  function AfterTasks(status: map<JobId, Status>, tasks: seq<Task>): map<JobId, Status> {
    if tasks == [] then status
    else
      var before, task := AfterTasks(status, tasks[..|tasks| - 1]), tasks[|tasks| - 1];
      if task.id in before then before[task.id := TaskStatus(before[task.id], task)] else before
  }

  class PythonLauncher {
    var queue: seq<Task>
    var status: map<JobId, Status>

    method Put(task: Task)
      modifies this`queue
      ensures queue == old(queue) + [task]
    {
      queue := queue + [task];
    }

    method SubmitJobImpl(id: JobId, result: SubmitResult)
      modifies this`status
      ensures status == AfterTasks(old(status), [SubmitTask(id, result)])
      ensures status.Keys == old(status).Keys && forall other | other in status && other != id :: status[other] == old(status)[other]
      ensures id in status ==> (result.Created? ==> status[id] == Scheduling) && (result.Invalid? ==> status[id] == Error)
      ensures id in status && result.Raised? ==> status[id] == if result.retries >= 5 then Error else old(status)[id]
      ensures id in status && result.PodsRemain? ==> status[id] == old(status)[id]
    {
      assert [SubmitTask(id, result)][..0] == [];
      if id in status {
        match result
        case PodsRemain => return;
        case Invalid => status := status[id := Error];
        case Raised(retries) =>
          if retries >= 5 {
            status := status[id := Error];
          }
        case Created => status := status[id := Scheduling];
      }
    }

    /** `ok` is false where the original ends in an exception. */
    method KillJobImpl(id: JobId, desired: Status, errors: bool) returns (ok: bool)
      modifies this`status
      ensures status == AfterTasks(old(status), [KillTask(id, desired, errors)])
      ensures status == if errors || id !in old(status) then old(status) else old(status)[id := desired]
      ensures ok == !errors
    {
      assert [KillTask(id, desired, errors)][..0] == [];
      if !errors && id in status {
        status := status[id := desired];
      }
      ok := !errors;
    }

    /** The worker loop until the queue is empty, which wait_tasks_done waits for. */
    method WaitTasksDone()
      modifies this
      ensures queue == [] && status == AfterTasks(old(status), old(queue))
    {
      ghost var done: seq<Task> := [];
      while queue != []
        invariant done + queue == old(queue)
        invariant status == AfterTasks(old(status), done)
        decreases |queue|
      {
        var task := queue[0];
        queue := queue[1..];
        match task {
          case SubmitTask(id, result) => SubmitJobImpl(id, result);
          case KillTask(id, desired, errors) => var ok := KillJobImpl(id, desired, errors);
        }
        assert [task][..0] == [];
        assert (done + [task])[..|done|] == done;
        done := done + [task];
      }
      assert done + queue == done;
    }
  }

  ghost predicate DistinctTasks(tasks: seq<Task>) {
    forall i, j | 0 <= i < j < |tasks| :: tasks[i].id != tasks[j].id
  }

  /** With at most one task per job, each job's row depends on its own task alone. */
  lemma {:induction false} EachRowByItsTask(status: map<JobId, Status>, tasks: seq<Task>)
    requires DistinctTasks(tasks)
    ensures AfterTasks(status, tasks).Keys == status.Keys
    ensures forall i | 0 <= i < |tasks| && tasks[i].id in status ::
              AfterTasks(status, tasks)[tasks[i].id] == TaskStatus(status[tasks[i].id], tasks[i])
    ensures forall id | id in status && (forall i | 0 <= i < |tasks| :: tasks[i].id != id) ::
              AfterTasks(status, tasks)[id] == status[id]
  {
    if tasks == [] {
    } else {
      var n := |tasks| - 1;
      EachRowByItsTask(status, tasks[..n]);
      forall i | 0 <= i < |tasks| && tasks[i].id in status
        ensures AfterTasks(status, tasks)[tasks[i].id] == TaskStatus(status[tasks[i].id], tasks[i])
      {
        if i < n { assert tasks[..n][i] == tasks[i]; }
      }
    }
  }

  function Submissions(id: JobId, results: seq<SubmitResult>): seq<Task> {
    seq(|results|, i requires 0 <= i < |results| => SubmitTask(id, results[i]))
  }

  /** Submissions that keep raising, each raising the counter by one, leave the job queued up to the fourth count and in
      error from the fifth on. */
  lemma {:induction false} FailedSubmissions(status: map<JobId, Status>, id: JobId, results: seq<SubmitResult>, counter: nat)
    requires id in status && status[id] == Queued
    requires forall i | 0 <= i < |results| :: results[i] == Raised(counter + i + 1)
    ensures AfterTasks(status, Submissions(id, results)) ==
            if results != [] && counter + |results| >= 5 then status[id := Error] else status
  {
    if results == [] {
      assert Submissions(id, results) == [];
    } else {
      var n := |results| - 1;
      FailedSubmissions(status, id, results[..n], counter);
      assert Submissions(id, results)[..n] == Submissions(id, results[..n]);
    }
  }

  /** Whatever went before, a submission whose job is invalid ends in error, one that creates the pods in scheduling, and
      one that finds old pods changes nothing. */
  lemma LastSubmission(status: map<JobId, Status>, id: JobId, results: seq<SubmitResult>, last: SubmitResult)
    requires id in AfterTasks(status, Submissions(id, results)) && !last.Raised?
    ensures var before := AfterTasks(status, Submissions(id, results));
            AfterTasks(status, Submissions(id, results + [last])) ==
            if last == Invalid then before[id := Error] else if last == Created then before[id := Scheduling] else before
  {
    assert Submissions(id, results + [last])[..|results|] == Submissions(id, results);
  }

  /** The several worker processes may take the tasks of a round in any order: the table ends up the same. */
  lemma OrderIrrelevant(status: map<JobId, Status>, tasks: seq<Task>, others: seq<Task>)
    requires DistinctTasks(tasks) && DistinctTasks(others) && forall t :: t in tasks <==> t in others
    ensures AfterTasks(status, tasks) == AfterTasks(status, others)
  {
    EachRowByItsTask(status, tasks);
    EachRowByItsTask(status, others);
    var a, b := AfterTasks(status, tasks), AfterTasks(status, others);
    forall id | id in status ensures a[id] == b[id] {
      if t :| t in tasks && t.id == id {
        assert t in others;
      } else {
        forall i | 0 <= i < |tasks| ensures tasks[i].id != id { assert tasks[i] in tasks; }
        forall i | 0 <= i < |others| ensures others[i].id != id { assert others[i] in tasks; }
      }
    }
  }
}

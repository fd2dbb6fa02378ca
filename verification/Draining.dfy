/** The launcher working off the tasks of one round, in any order: what it leaves, when the limits hold on the way, and
    what the next round then does (src/ClusterManager/job_launcher.py and src/ClusterManager/job_manager.py, Run). */
module Draining {
  import opened Jobs
  import opened Resources
  import opened Admission
  import opened SortKey
  import opened Scheduler
  import opened Launcher
  import opened Lifecycle

  predicate IsTask(e: Event) {
    e.LauncherSubmit? || e.LauncherKill?
  }

  ghost predicate Drains(states: seq<State>, events: seq<Event>) {
    Run(states, events) && forall i | 0 <= i < |events| :: IsTask(events[i])
  }

  /** `t` is reached from `s` by launcher tasks alone. */
  ghost predicate Follows(s: State, t: State) {
    && WellFormed(t) && t.specs == s.specs && t.env == s.env && t.submits <= s.submits && t.kills <= s.kills
    && Active(t) + t.submits <= Active(s) + s.submits
  }

  lemma DrainStep(s: State, e: Event)
    requires WellFormed(s) && Enabled(s, e) && IsTask(e)
    ensures Follows(s, Apply(s, e))
  {
  }

  lemma {:induction false} DrainFollows(states: seq<State>, events: seq<Event>, n: nat)
    requires Drains(states, events) && WellFormed(states[0]) && n < |states|
    ensures Follows(states[0], states[n])
  {
    if n == 0 {
    } else {
      DrainFollows(states, events, n - 1);
      assert IsTask(events[n - 1]);
      DrainStep(states[n - 1], events[n - 1]);
    }
  }

  // ---- When the limits hold on the way -------------------------------------------------------------

  ghost predicate ActiveWithin(s: State) {
    s.specs.Keys == s.status.Keys && WithinLimits(s, Active(s))
  }

  /** In whatever order the tasks are taken and however they end, the active jobs stay within the limits. */
  ghost predicate AlwaysWithin(s: State) {
    forall states, events, n | Drains(states, events) && states[0] == s && 0 <= n < |states| :: ActiveWithin(states[n])
  }

  /** A run in which every submission comes before any kill. */
  lemma {:induction false} SubmitAll(s: State) returns (states: seq<State>, events: seq<Event>)
    requires WellFormed(s)
    ensures Drains(states, events) && states[0] == s
    ensures var t := states[|states| - 1];
            Follows(s, t) && Active(t) == Active(s) + s.submits
    decreases |s.submits|
  {
    if s.submits == {} {
      states, events := [s], [];
    } else {
      var id :| id in s.submits;
      var e := LauncherSubmit(id, Created);
      var s1 := Apply(s, e);
      DrainStep(s, e);
      assert Active(s1) == Active(s) + {id};
      var rest, later := SubmitAll(s1);
      states, events := [s] + rest, [e] + later;
    }
  }

  /** Before the launcher starts one can tell exactly whether the limits are safe: they hold on every way through the
      tasks, kills with errors included, if and only if the active jobs and the submitted ones fit together. */
  lemma DrainWithinExactly(s: State)
    requires WellFormed(s)
    ensures AlwaysWithin(s) <==> WithinLimits(s, Active(s) + s.submits)
  {
    if WithinLimits(s, Active(s) + s.submits) {
      forall states, events, n | Drains(states, events) && states[0] == s && 0 <= n < |states|
        ensures ActiveWithin(states[n])
      {
        DrainFollows(states, events, n);
        FewerWithin(s, states[n], Active(s) + s.submits, Active(states[n]));
      }
    } else {
      var states, events := SubmitAll(s);
      var t := states[|states| - 1];
      assert !WithinLimits(t, Active(t));
    }
  }

  lemma FewerWithin(s: State, t: State, ids: set<JobId>, fewer: set<JobId>)
    requires t.specs == s.specs && t.env == s.env && fewer <= ids <= s.specs.Keys && WithinLimits(s, ids)
    ensures WithinLimits(t, fewer)
  {
    forall pool ensures Demand(t.specs, fewer, pool) <= Max(0, Limit(t.env, pool)) {
      DemandMonotone(s.specs, fewer, s.specs, ids, pool);
    }
  }

  // ---- The queue and the drained state --------------------------------------------------------------

  /** What the cluster will answer to each task. */
  datatype Answers = Answers(submits: map<JobId, SubmitResult>, errors: set<JobId>)
  {
    function Result(id: JobId): SubmitResult {
      if id in submits then submits[id] else Created
    }

    function TaskFor(action: Action): seq<Task> {
      match action
      case Submit(id) => [SubmitTask(id, Result(id))]
      case Preempt(id) => [KillTask(id, Queued, id in errors)]
      case Report(_, _) => []
    }
  }

  function TasksOf(actions: seq<Action>, answers: Answers): seq<Task> {
    if actions == [] then []
    else TasksOf(actions[..|actions| - 1], answers) + answers.TaskFor(actions[|actions| - 1])
  }

  /** The third loop hands its actions to the launcher, and the next iteration of the manager waits for the queue. */
  method CarryOut(launcher: PythonLauncher, actions: seq<Action>, answers: Answers)
    requires launcher.queue == []
    modifies launcher
    ensures launcher.queue == [] && launcher.status == AfterTasks(old(launcher.status), TasksOf(actions, answers))
  {
    for n := 0 to |actions|
      invariant launcher.queue == TasksOf(actions[..n], answers) && launcher.status == old(launcher.status)
    {
      assert actions[..n + 1][..n] == actions[..n];
      match actions[n] {
        case Submit(id) => launcher.Put(SubmitTask(id, answers.Result(id)));
        case Preempt(id) => launcher.Put(KillTask(id, Queued, id in answers.errors));
        case Report(_, _) =>
      }
    }
    assert actions[..|actions|] == actions;
    launcher.WaitTasksDone();
  }

  function TaskOf(e: Event): Task
    requires IsTask(e)
  {
    if e.LauncherSubmit? then SubmitTask(e.id, e.result) else KillTask(e.id, Queued, e.errors)
  }

  function DoneTasks(events: seq<Event>): seq<Task>
    requires forall i | 0 <= i < |events| :: IsTask(events[i])
  {
    if events == [] then [] else DoneTasks(events[..|events| - 1]) + [TaskOf(events[|events| - 1])]
  }

  ghost predicate Answered(events: seq<Event>, answers: Answers) {
    forall i | 0 <= i < |events| ::
      && (events[i].LauncherSubmit? ==> events[i].result == answers.Result(events[i].id))
      && (events[i].LauncherKill? ==> events[i].errors == (events[i].id in answers.errors))
  }

  /** The task is one that the launcher had in `s` and no longer has in `t`. */
  predicate Done(s: State, t: State, answers: Answers, task: Task) {
    match task
    case SubmitTask(id, result) => id in s.submits && id !in t.submits && result == answers.Result(id)
    case KillTask(id, desired, errors) =>
      id in s.kills && id !in t.kills && desired == Queued && errors == (id in answers.errors)
  }

  lemma DoneStep(s0: State, s: State, e: Event, answers: Answers, task: Task)
    requires WellFormed(s0) && Follows(s0, s) && Enabled(s, e) && IsTask(e) && Answered([e], answers)
    ensures Done(s0, Apply(s, e), answers, task) <==> Done(s0, s, answers, task) || task == TaskOf(e)
    ensures Done(s0, s, answers, task) ==> task.id != TaskOf(e).id
  {
    assert [e][0] == e;
  }

  lemma {:induction false} DrainTasks(states: seq<State>, events: seq<Event>, answers: Answers, n: nat)
    requires Drains(states, events) && WellFormed(states[0]) && Answered(events, answers) && n < |states|
    ensures forall task :: task in DoneTasks(events[..n]) <==> Done(states[0], states[n], answers, task)
    ensures DistinctTasks(DoneTasks(events[..n]))
  {
    if n == 0 {
      assert DoneTasks(events[..0]) == [];
    } else {
      var s, e := states[n - 1], events[n - 1];
      DrainTasks(states, events, answers, n - 1);
      DrainFollows(states, events, n - 1);
      DoneSplit(events, n);
      forall task
        ensures Done(states[0], states[n], answers, task) <==> Done(states[0], s, answers, task) || task == TaskOf(e)
        ensures Done(states[0], s, answers, task) ==> task.id != TaskOf(e).id
      {
        DoneStep(states[0], s, e, answers, task);
      }
      DistinctMore(DoneTasks(events[..n - 1]), TaskOf(e));
    }
  }

  lemma DoneSplit(events: seq<Event>, n: nat)
    requires 0 < n <= |events| && forall i | 0 <= i < |events| :: IsTask(events[i])
    ensures DoneTasks(events[..n]) == DoneTasks(events[..n - 1]) + [TaskOf(events[n - 1])]
  {
    assert events[..n][..n - 1] == events[..n - 1];
  }

  lemma DistinctMore(tasks: seq<Task>, task: Task)
    requires DistinctTasks(tasks) && forall other | other in tasks :: other.id != task.id
    ensures DistinctTasks(tasks + [task])
  {
  }

  lemma {:induction false} DrainStatus(states: seq<State>, events: seq<Event>, n: nat)
    requires Drains(states, events) && n < |states|
    ensures states[n].status == AfterTasks(states[0].status, DoneTasks(events[..n]))
  {
    if n == 0 {
      assert DoneTasks(events[..0]) == [];
    } else {
      DrainStatus(states, events, n - 1);
      DoneSplit(events, n);
      StatusStep(states[n - 1], events[n - 1]);
      var before, task := DoneTasks(events[..n - 1]), TaskOf(events[n - 1]);
      assert (before + [task])[..|before|] == before;
    }
  }

  lemma StatusStep(s: State, e: Event)
    requires Enabled(s, e) && IsTask(e)
    ensures var task := TaskOf(e);
            task.id in s.status && Apply(s, e).status == s.status[task.id := TaskStatus(s.status[task.id], task)]
  {
  }

  lemma {:induction false} TasksOfMembers(actions: seq<Action>, answers: Answers, task: Task)
    ensures task in TasksOf(actions, answers) <==> IsQueued(actions, answers, task)
  {
    if actions == [] {
    } else {
      var n := |actions| - 1;
      TasksOfMembers(actions[..n], answers, task);
      assert actions == actions[..n] + [actions[n]];
      assert task in answers.TaskFor(actions[n]) <==> IsQueued([actions[n]], answers, task);
    }
  }

  lemma TasksOfOneMore(actions: seq<Action>, more: seq<Action>, answers: Answers)
    requires |more| <= 1
    ensures TasksOf(actions + more, answers) == TasksOf(actions, answers) + if more == [] then [] else answers.TaskFor(more[0])
  {
    if more == [] {
      assert actions + more == actions;
    } else {
      assert (actions + more)[..|actions|] == actions;
    }
  }

  predicate IdBefore(jobs: seq<Job>, n: nat, id: JobId)
    requires n <= |jobs|
  {
    exists i | 0 <= i < n :: jobs[i].id == id
  }

  ghost predicate QueuedFor(jobs: seq<Job>, n: nat, tasks: seq<Task>)
    requires n <= |jobs|
  {
    DistinctTasks(tasks) && forall i | 0 <= i < |tasks| :: IdBefore(jobs, n, tasks[i].id)
  }

  lemma QueuedForMore(jobs: seq<Job>, n: nat, tasks: seq<Task>, more: seq<Task>)
    requires n < |jobs| && DistinctIds(jobs) && QueuedFor(jobs, n, tasks)
    requires |more| <= 1 && forall i | 0 <= i < |more| :: more[i].id == jobs[n].id
    ensures QueuedFor(jobs, n + 1, tasks + more)
  {
    assert IdBefore(jobs, n + 1, jobs[n].id);
    forall id | IdBefore(jobs, n, id) ensures IdBefore(jobs, n + 1, id) && id != jobs[n].id {
      var i :| 0 <= i < n && jobs[i].id == id;
    }
  }

  /** A round queues at most one task per job. */
  lemma QueuedDistinct(env: Env, jobs: seq<Job>, accept: seq<bool>, answers: Answers, n: nat)
    returns (tasks: seq<Task>)
    requires |accept| == |jobs| && n <= |jobs| && DistinctIds(jobs)
    ensures tasks == TasksOf(Actions(env, jobs, accept, n), answers) && QueuedFor(jobs, n, tasks)
  {
    tasks := [];
    for k := 0 to n
      invariant tasks == TasksOf(Actions(env, jobs, accept, k), answers) && QueuedFor(jobs, k, tasks)
    {
      var more := OneMoreTask(env, jobs, accept, answers, k);
      QueuedForMore(jobs, k, tasks, more);
      tasks := tasks + more;
    }
  }

  lemma OneMoreTask(env: Env, jobs: seq<Job>, accept: seq<bool>, answers: Answers, n: nat) returns (more: seq<Task>)
    requires |accept| == |jobs| && n < |jobs|
    ensures |more| <= 1 && forall i | 0 <= i < |more| :: more[i].id == jobs[n].id
    ensures TasksOf(Actions(env, jobs, accept, n + 1), answers) == TasksOf(Actions(env, jobs, accept, n), answers) + more
  {
    var last := ActionFor(env, jobs, accept, n);
    TasksOfOneMore(Actions(env, jobs, accept, n), last, answers);
    more := if last == [] then [] else answers.TaskFor(last[0]);
    ActionIsFor(env, jobs, accept, n);
  }

  lemma ActionIsFor(env: Env, jobs: seq<Job>, accept: seq<bool>, n: nat)
    requires |accept| == |jobs| && n < |jobs|
    ensures var last := ActionFor(env, jobs, accept, n);
            |last| <= 1 && forall a | a in last :: a.id == jobs[n].id
  {
  }

  predicate IsQueued(actions: seq<Action>, answers: Answers, task: Task) {
    match task
    case SubmitTask(id, result) => Submit(id) in actions && result == answers.Result(id)
    case KillTask(id, desired, errors) => Preempt(id) in actions && desired == Queued && errors == (id in answers.errors)
  }

  /** The step-by-step launcher of the runs and the queue agree: once everything is drained, whatever the order, the
      table is the one that waiting for the queue of the round leaves. */
  lemma DrainIsWait(s: State, priorities: Priorities, jobs: seq<Job>, accept: seq<bool>, marks: seq<(JobId, Status)>,
                    states: seq<State>, events: seq<Event>, answers: Answers)
    requires InOrder(s, priorities, jobs) && |accept| == |jobs| && WellFormed(AfterRound(s, marks, Actions(s.env, jobs, accept, |jobs|)))
    requires Drains(states, events) && states[0] == AfterRound(s, marks, Actions(s.env, jobs, accept, |jobs|))
    requires Answered(events, answers) && states[|events|].submits == {} && states[|events|].kills == {}
    ensures states[|events|].status == AfterTasks(states[0].status, TasksOf(Actions(s.env, jobs, accept, |jobs|), answers))
  {
    var n := |events|;
    assert events[..n] == events;
    DrainTasks(states, events, answers, n);
    DrainStatus(states, events, n);
    var tasks := QueuedDistinct(s.env, jobs, accept, answers, |jobs|);
    forall task
      ensures task in DoneTasks(events) <==> task in TasksOf(Actions(s.env, jobs, accept, |jobs|), answers)
    {
      TasksOfMembers(Actions(s.env, jobs, accept, |jobs|), answers, task);
      AllDone(s, priorities, jobs, accept, marks, states[n], answers, task);
    }
    OrderIrrelevant(states[0].status, DoneTasks(events), TasksOf(Actions(s.env, jobs, accept, |jobs|), answers));
  }

  lemma AllDone(s: State, priorities: Priorities, jobs: seq<Job>, accept: seq<bool>, marks: seq<(JobId, Status)>, t: State,
                answers: Answers, task: Task)
    requires InOrder(s, priorities, jobs) && |accept| == |jobs| && t.submits == {} && t.kills == {}
    ensures var actions := Actions(s.env, jobs, accept, |jobs|);
            Done(AfterRound(s, marks, actions), t, answers, task) <==> IsQueued(actions, answers, task)
  {
    ActionsSay(s.env, jobs, accept, |jobs|);
  }
}

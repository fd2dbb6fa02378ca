/** What one scheduling round does, in terms of the rows it reads: which jobs it looks at, starts, preempts, reports on
    and marks, in what order, and when it gives up (src/ClusterManager/job_manager.py, TakeJobActions). */
module RoundMeaning {
  import opened Jobs
  import opened Resources
  import opened Admission
  import opened StableSort
  import opened SortKey
  import opened Scheduler
  import opened Demands
  import opened Lifecycle
  import opened NextRound
  import opened JobPolls
  import opened Launcher

  // ---- Which jobs ------------------------------------------------------------------------------------

  lemma {:induction false} ConsideredCount(rows: seq<Job>, row: Job)
    ensures multiset(Considered(rows))[row] == if row.status in {Queued, Scheduling, Running} then multiset(rows)[row] else 0
  {
    if rows == [] {
    } else {
      var n := |rows| - 1;
      ConsideredCount(rows[..n], row);
      assert rows == rows[..n] + [rows[n]];
    }
  }

  /** A round treats every queued, scheduling or running row exactly as often as it is listed, and no other. */
  lemma RoundTakes(priorities: Priorities, rows: seq<Job>, row: Job)
    ensures multiset(RoundOrder(priorities, rows))[row] ==
            if row.status in {Queued, Scheduling, Running} then multiset(rows)[row] else 0
  {
    ConsideredCount(rows, row);
    KeyOrderingTotal(priorities);
    SortSorts(KeyOrdering(priorities), Considered(rows));
  }

  /** Rows that neither comes before the other in the promised order are treated in the order they are listed. */
  lemma TiesAsListed(priorities: Priorities, rows: seq<Job>, row: Job)
    ensures Class(KeyOrdering(priorities), RoundOrder(priorities, rows), row) == Class(KeyOrdering(priorities), Considered(rows), row)
  {
    KeyOrderingTotal(priorities);
    SortStable(KeyOrdering(priorities), Considered(rows), row);
  }

  // ---- What it does about them -------------------------------------------------------------------------

  /** What a waiting job is told: for each device type of its virtual cluster, what is left of the user's quota or of
      the schedulable devices, whichever is less. */
  ghost predicate IsReport(env: Env, jobs: seq<Job>, accept: seq<bool>, spec: Spec, shown: Counts)
    requires |accept| == |jobs| && spec.vc in env.vcs
  {
    && shown.Keys == env.vcs[spec.vc].total.Keys
    && forall d | d in shown ::
         var user := UserHolds(env, spec.vc, d) - UserAccepted(jobs, accept, spec.user, spec.vc, d);
         var vc := VcHolds(env, spec.vc, d) - VcAccepted(jobs, accept, spec.vc, d);
         shown[d] == if user < vc then user else vc
  }

  lemma ReportIs(env: Env, jobs: seq<Job>, accept: seq<bool>, spec: Spec, shown: Counts)
    requires |accept| == |jobs| && spec.vc in env.vcs
    ensures shown == Meet(UserLeft(env, jobs, accept, spec.user, spec.vc), VcLeft(env, jobs, accept, spec.vc)) <==>
            IsReport(env, jobs, accept, spec, shown)
  {
    var meet := Meet(UserLeft(env, jobs, accept, spec.user, spec.vc), VcLeft(env, jobs, accept, spec.vc));
    forall d | d in env.vcs[spec.vc].total
      ensures var user := UserHolds(env, spec.vc, d) - UserAccepted(jobs, accept, spec.user, spec.vc, d);
              var vc := VcHolds(env, spec.vc, d) - VcAccepted(jobs, accept, spec.vc, d);
              meet[d] == if user < vc then user else vc
    {
      TotalIsAccepted(jobs, accept, spec.user, spec.vc, d);
      LimitIsHeld(env, spec.user, spec.vc, d);
    }
    assert meet.Keys == env.vcs[spec.vc].total.Keys;
  }

  lemma {:induction false} ReportsSay(env: Env, jobs: seq<Job>, accept: seq<bool>, n: nat, id: JobId, shown: Counts)
    requires |accept| == |jobs| && n <= |jobs|
    ensures Report(id, shown) in Actions(env, jobs, accept, n) <==>
            exists i :: 0 <= i < n && jobs[i].id == id && jobs[i].status == Queued && !accept[i] && jobs[i].spec.vc in env.vcs &&
                        IsReport(env, jobs, accept, jobs[i].spec, shown)
  {
    if n == 0 {
    } else {
      ReportsSay(env, jobs, accept, n - 1, id, shown);
      if jobs[n - 1].spec.vc in env.vcs { ReportIs(env, jobs, accept, jobs[n - 1].spec, shown); }
    }
  }

  lemma {:induction false} MarksSay(env: Env, jobs: seq<Job>, id: JobId, mark: Status)
    ensures (id, mark) in Orphans(env, jobs) <==>
            exists i :: 0 <= i < |jobs| && jobs[i].id == id && jobs[i].spec.vc !in env.vcs &&
                        mark == if jobs[i].status in {Scheduling, Running} then Killing else Killed
  {
    if jobs == [] {
    } else {
      MarksSay(env, jobs[..|jobs| - 1], id, mark);
    }
  }

  /** A decided round starts the accepted queued jobs, preempts the preemptible active ones it does not accept, tells
      the other queued ones what is available, and marks those whose virtual cluster is gone. */
  lemma RoundDoes(env: Env, jobs: seq<Job>, outcome: Outcome, id: JobId, shown: Counts, mark: Status)
    requires IsOutcome(env, jobs, outcome) && outcome.Decided?
    ensures var accept := TwoPass(env, jobs);
            && (Submit(id) in outcome.actions <==> exists i :: 0 <= i < |jobs| && jobs[i].id == id && jobs[i].status == Queued && accept[i])
            && (Preempt(id) in outcome.actions <==>
                  exists i :: 0 <= i < |jobs| && jobs[i].id == id && jobs[i].spec.preemptible &&
                              (jobs[i].status == Scheduling || jobs[i].status == Running) && !accept[i])
            && (Report(id, shown) in outcome.actions <==>
                  exists i :: 0 <= i < |jobs| && jobs[i].id == id && jobs[i].status == Queued && !accept[i] &&
                              jobs[i].spec.vc in env.vcs && IsReport(env, jobs, accept, jobs[i].spec, shown))
    ensures (id, mark) in outcome.marked <==>
            exists i :: 0 <= i < |jobs| && jobs[i].id == id && jobs[i].spec.vc !in env.vcs &&
                        mark == if jobs[i].status in {Scheduling, Running} then Killing else Killed
  {
    var accept := TwoPass(env, jobs);
    SubmitsSay(env, jobs, accept, |jobs|, id);
    PreemptsSay(env, jobs, accept, |jobs|, id);
    ReportsSay(env, jobs, accept, |jobs|, id, shown);
    MarksSay(env, jobs, id, mark);
  }

  // ---- In what order -------------------------------------------------------------------------------------

  /** `ids` are the ids of some of the jobs, each job giving at most one, in the order of the jobs. */
  ghost predicate InJobOrder(ids: seq<JobId>, jobs: seq<Job>) {
    if jobs == [] then ids == []
    else
      var n := |jobs| - 1;
      || InJobOrder(ids, jobs[..n])
      || (ids != [] && ids[|ids| - 1] == jobs[n].id && InJobOrder(ids[..|ids| - 1], jobs[..n]))
  }

  function ActionIds(actions: seq<Action>): seq<JobId> {
    seq(|actions|, i requires 0 <= i < |actions| => actions[i].id)
  }

  function MarkIds(marks: seq<(JobId, Status)>): seq<JobId> {
    seq(|marks|, i requires 0 <= i < |marks| => marks[i].0)
  }

  lemma {:induction false} ActionsInOrder(env: Env, jobs: seq<Job>, accept: seq<bool>, n: nat)
    requires |accept| == |jobs| && n <= |jobs|
    ensures InJobOrder(ActionIds(Actions(env, jobs, accept, n)), jobs[..n])
  {
    if n == 0 {
    } else {
      ActionsInOrder(env, jobs, accept, n - 1);
      var before, last := Actions(env, jobs, accept, n - 1), ActionFor(env, jobs, accept, n - 1);
      assert jobs[..n][..n - 1] == jobs[..n - 1];
      if last == [] {
        assert before + last == before;
      } else {
        assert ActionIds(before + last) == ActionIds(before) + [last[0].id];
        assert ActionIds(before + last)[..|before|] == ActionIds(before);
      }
    }
  }

  lemma {:induction false} MarksInOrder(env: Env, jobs: seq<Job>)
    ensures InJobOrder(MarkIds(Orphans(env, jobs)), jobs)
  {
    if jobs == [] {
    } else {
      var n := |jobs| - 1;
      MarksInOrder(env, jobs[..n]);
      var before, all := Orphans(env, jobs[..n]), Orphans(env, jobs);
      if |all| > |before| {
        assert MarkIds(all)[..|before|] == MarkIds(before);
      } else {
        assert MarkIds(all) == MarkIds(before);
      }
    }
  }

  /** Tasks are queued and rows are marked in the order of the round, each row at most once. */
  lemma RoundInOrder(env: Env, jobs: seq<Job>, outcome: Outcome)
    requires IsOutcome(env, jobs, outcome) && outcome.Decided?
    ensures InJobOrder(ActionIds(outcome.actions), jobs) && InJobOrder(MarkIds(outcome.marked), jobs)
  {
    ActionsInOrder(env, jobs, TwoPass(env, jobs), |jobs|);
    MarksInOrder(env, jobs);
    assert jobs[..|jobs|] == jobs;
  }

  // ---- When it gives up ------------------------------------------------------------------------------------

  /** A round ends without any action exactly if the cluster's capacity lacks a device type that is unschedulable, or
      one that an accepted non-preemptible job asks for, or if the virtual cluster of a preemptible job is missing. */
  lemma AbortedExactly(env: Env, jobs: seq<Job>, outcome: Outcome)
    requires IsOutcome(env, jobs, outcome)
    ensures outcome.Aborted? <==>
            || (exists d :: d in env.unschedulable && env.unschedulable[d] > 0 && d !in env.capacity)
            || (exists i :: 0 <= i < |jobs| && TwoPass(env, jobs)[i] && !jobs[i].spec.preemptible &&
                            Devices(jobs[i].spec) > 0 && jobs[i].spec.device !in env.capacity)
            || (exists i :: 0 <= i < |jobs| && jobs[i].spec.preemptible && jobs[i].spec.vc !in env.vcs)
  {
    forall i | 0 <= i < |jobs|
      ensures MissingDevice(env, jobs, i) <==>
              TwoPass(env, jobs)[i] && !jobs[i].spec.preemptible && Devices(jobs[i].spec) > 0 && jobs[i].spec.device !in env.capacity
    {
      FirstPassIsPart(env, jobs, i);
      DrawIsAsked(jobs[i].spec, jobs[i].spec.user, jobs[i].spec.vc, jobs[i].spec.device);
    }
  }

  // ---- What every step does to a row ------------------------------------------------------------------------

  /** How the status of a row changes in a run: by approval into queued or killed, by a user or another manager, by a
      poll while it is active, and by the launcher into scheduling, error or queued. */
  lemma {:induction false} RowAfterStep(s: State, e: Event, id: JobId)
    requires s.specs.Keys == s.status.Keys && Enabled(s, e) && id in s.status && !e.Round?
    ensures id in Apply(s, e).status
    ensures var (before, now) := (s.status[id], Apply(s, e).status[id]);
            && (e.Arrive? || e.Recount? ==> now == before)
            && (e.ApproveJob? ==> now == if e.id != id then before
                                         else if s.specs[id].preemptible || s.specs[id].vc in s.env.vcs then Queued else Killed)
            && (e.TableWrite? ==> now == if e.id == id then e.written else before)
            && (e.Poll? ==> now == if e.o.id == id then RowAfter(s.memory, before, e.o) else before)
            && (e.LauncherSubmit? && e.id == id ==>
                  (e.result == Created ==> now == Scheduling) && (e.result == Invalid ==> now == Error))
            && (e.LauncherKill? && e.id == id ==> now == if e.errors then before else Queued)
            && ((e.LauncherSubmit? || e.LauncherKill?) && e.id != id ==> now == before)
  {
  }

  /** What a step leaves besides the rows it found: new jobs are unapproved, polls alone change what the manager
      remembers, recounts alone change the limits. */
  lemma {:induction false} StepLeaves(s: State, e: Event)
    requires Enabled(s, e)
    ensures e.Arrive? ==> Apply(s, e).specs == s.specs[e.id := e.spec] && Apply(s, e).status == s.status[e.id := Unapproved]
    ensures !e.Arrive? ==> Apply(s, e).specs == s.specs
    ensures Apply(s, e).memory == if e.Poll? then MemoryAfter(s.memory, e.o) else s.memory
    ensures Apply(s, e).env == if e.Recount? then e.env else s.env
  {
  }

  /** A decided round changes the rows of its jobs whose virtual cluster is gone, and no other. */
  lemma {:induction false} RowAfterDecided(s: State, e: Event, jobs: seq<Job>, id: JobId)
    requires e.Round? && e.outcome.Decided? && jobs == RoundOrder(e.priorities, e.rows) && InOrder(s, e.priorities, jobs)
    requires Enabled(s, e) && s.specs.Keys == s.status.Keys && id in s.status
    ensures id in Apply(s, e).status
    ensures Apply(s, e).status[id] == if s.specs[id].vc in s.env.vcs || s.status[id] !in {Queued, Scheduling, Running} then s.status[id]
                                      else if s.status[id] == Queued then Killed else Killing
  {
    DecidedMarks(s, e, jobs);
    RowAfterRound(s, e.priorities, jobs, id);
  }

  lemma {:induction false} DecidedMarks(s: State, e: Event, jobs: seq<Job>)
    requires e.Round? && e.outcome.Decided? && jobs == RoundOrder(e.priorities, e.rows) && Enabled(s, e)
    ensures Apply(s, e).status == MarkAll(s.status, Orphans(s.env, jobs))
  {
  }

  lemma {:induction false} RowAfterRound(s: State, priorities: Priorities, jobs: seq<Job>, id: JobId)
    requires InOrder(s, priorities, jobs) && s.specs.Keys == s.status.Keys && id in s.status
    ensures var status := MarkAll(s.status, Orphans(s.env, jobs));
            && id in status
            && status[id] == if s.specs[id].vc in s.env.vcs || s.status[id] !in {Queued, Scheduling, Running} then s.status[id]
                             else if s.status[id] == Queued then Killed else Killing
  {
    var marks := Orphans(s.env, jobs);
    OrphansAre(s.env, jobs, id);
    MarkedStatus(s.status, marks, id);
    if exists i :: 0 <= i < |jobs| && jobs[i].id == id && jobs[i].spec.vc !in s.env.vcs {
      var i :| 0 <= i < |jobs| && jobs[i].id == id && jobs[i].spec.vc !in s.env.vcs;
      var mark := if jobs[i].status in {Scheduling, Running} then Killing else Killed;
      SameMarks(s.env, jobs, i, mark);
      MarkWritten(s.status, marks, id, mark);
    }
  }

  lemma {:induction false} SameMarks(env: Env, jobs: seq<Job>, i: nat, mark: Status)
    requires DistinctIds(jobs) && i < |jobs| && jobs[i].spec.vc !in env.vcs
    requires mark == if jobs[i].status in {Scheduling, Running} then Killing else Killed
    ensures Marked(Orphans(env, jobs), jobs[i].id)
    ensures forall m | m in Orphans(env, jobs) && m.0 == jobs[i].id :: m.1 == mark
  {
    OrphansAre(env, jobs, jobs[i].id);
    forall m | m in Orphans(env, jobs) && m.0 == jobs[i].id ensures m.1 == mark {
      MarksSay(env, jobs, jobs[i].id, m.1);
      OnlyIndex(jobs, i);
    }
  }

  lemma {:induction false} MarkWritten(status: map<JobId, Status>, marks: seq<(JobId, Status)>, id: JobId, mark: Status)
    requires Marked(marks, id) && forall m | m in marks && m.0 == id :: m.1 == mark
    ensures id in MarkAll(status, marks) && MarkAll(status, marks)[id] == mark
  {
    var n := |marks| - 1;
    if marks[n].0 != id {
      var i :| 0 <= i < |marks| && marks[i].0 == id;
      assert marks[..n][i].0 == id;
      MarkWritten(status, marks[..n], id, mark);
    } else {
      assert marks[n] in marks;
    }
  }
}

/** Whole runs of the cluster: scheduling rounds, the launcher that carries out their actions one by one, status
    polls, approvals and user requests, and what stays true throughout
    (src/ClusterManager/job_manager.py and src/ClusterManager/job_launcher.py). */
module Lifecycle {
  import opened Jobs
  import opened Resources
  import opened Admission
  import opened StableSort
  import opened SortKey
  import opened Scheduler
  import opened JobPolls
  import opened Launcher
  import opened Demands
  import Quota

  /** The job table, the tables a round reads, and the launcher tasks the last round queued. */
  datatype State = State(specs: map<JobId, Spec>, status: map<JobId, Status>, env: Env,
                         submits: set<JobId>, kills: set<JobId>, memory: Memory)

  /** What a recount divides: per device type the free devices and the sum of all weights, and each weight. */
  datatype Division = Division(free: map<string, nat>, sums: map<string, nat>, weights: map<(string, string), nat>)

  datatype Event =
    | Arrive(id: JobId, spec: Spec)
    | ApproveJob(id: JobId)
    | TableWrite(id: JobId, written: Status)       // a user request or another manager's kill; never an active status
    | Poll(o: Observation)
    | Round(priorities: Priorities, rows: seq<Job>, outcome: Outcome)
    | LauncherSubmit(id: JobId, result: SubmitResult)
    | LauncherKill(id: JobId, errors: bool)
    | Recount(env: Env, division: Division)        // new limits from the configuration, the jobs and the hardware

  function MarkAll(status: map<JobId, Status>, marks: seq<(JobId, Status)>): map<JobId, Status> {
    if marks == [] then status
    else MarkAll(status, marks[..|marks| - 1])[marks[|marks| - 1].0 := marks[|marks| - 1].1]
  }

  /** The rows are the considered part of the table, each once, in any order. */
  ghost predicate Lists(s: State, rows: seq<Job>) {
    && (forall i | 0 <= i < |rows| :: rows[i].id in s.specs && rows[i].id in s.status &&
                                      rows[i] == Job(rows[i].id, s.specs[rows[i].id], s.status[rows[i].id]))
    && DistinctIds(rows)
    && (forall id | id in s.status && IsConsidered(s.status[id]) :: exists i :: 0 <= i < |rows| && rows[i].id == id)
  }

  ghost predicate DistinctIds(jobs: seq<Job>) {
    forall i, j | 0 <= i < j < |jobs| :: jobs[i].id != jobs[j].id
  }

  ghost predicate Enabled(s: State, e: Event) {
    match e
    case Arrive(id, _) => id !in s.specs
    case ApproveJob(id) => id in s.specs && id in s.status && s.status[id] == Unapproved
    case TableWrite(id, written) => id in s.status && !IsActive(written)
    case Poll(o) => o.id in s.status && IsActive(s.status[o.id])
    case Round(priorities, rows, outcome) =>
      s.submits == {} && s.kills == {} && Lists(s, rows) && MayEnd(s.env, RoundOrder(priorities, rows), outcome)
    case LauncherSubmit(id, _) => id in s.submits && id in s.status
    case LauncherKill(id, _) => id in s.kills && id in s.status
    case Recount(env', division) =>
      s.submits == {} && s.kills == {} && s.specs.Keys == s.status.Keys && IsRecount(s, env', division) && KeepsQuotas(s, env')
  }

  /** Besides, any call to the database can raise and abort a round among its marks. */
  ghost predicate MayEnd(env: Env, jobs: seq<Job>, outcome: Outcome) {
    IsOutcome(env, jobs, outcome) || (outcome.Aborted? && outcome.marked <= Orphans(env, jobs))
  }

  /** The limits are the configured quotas less what the division leaves unschedulable, given what the active jobs
      use. Jobs without a device type ("any") are not counted as use. */
  ghost predicate IsRecount(s: State, env: Env, division: Division)
    requires s.specs.Keys == s.status.Keys
  {
    && (forall id | id in Active(s) :: TotalGpu(s.specs[id]) >= 0)
    && forall vc, d | vc in env.vcs && d in env.vcs[vc].total ::
         && d != "any"
         && Count(env.vcs[vc].unschedulable, d) ==
            Quota.Unschedulable(At(division.free, d), At(division.sums, d),
                                Quota.Share(env.vcs[vc].total[d], Usage(s.specs, Active(s), vc, d), At(division.weights, (vc, d))))
  }

  function At<K(==)>(m: map<K, nat>, k: K): nat {
    if k in m then m[k] else 0
  }

  /** What the configuration allows of a pool, before any device is unschedulable. */
  function Configured(env: Env, pool: Pool): int {
    if pool.vc !in env.vcs then 0
    else Count(if pool.VcPool? then env.vcs[pool.vc].total else UserAllocable(env.vcs[pool.vc]), pool.device)
  }

  /** No configured quota shrinks, or not below what active jobs use of it. */
  ghost predicate KeepsQuotas(s: State, env: Env)
    requires s.specs.Keys == s.status.Keys
  {
    forall pool :: Configured(env, pool) >= Min(Configured(s.env, pool), Demand(s.specs, Active(s), pool))
  }

  /** vc_usage: the devices of one type that the active jobs of a virtual cluster ask for. */
  ghost function Usage(specs: map<JobId, Spec>, ids: set<JobId>, vc: string, device: string): int
    requires ids <= specs.Keys
  {
    if ids == {} then 0
    else
      var id :| id in ids;
      Usage(specs, ids - {id}, vc, device) + if specs[id].vc == vc && specs[id].device == device then TotalGpu(specs[id]) else 0
  }

  /** Orphans are marked at once; what starts and stops waits for the launcher. */
  ghost function AfterRound(s: State, marked: seq<(JobId, Status)>, actions: seq<Action>): State {
    s.(status := MarkAll(s.status, marked),
       submits := (set id | id in s.specs && Submit(id) in actions),
       kills := (set id | id in s.specs && Preempt(id) in actions))
  }

  ghost function Apply(s: State, e: Event): State
    requires Enabled(s, e)
  {
    match e
    case Arrive(id, spec) => s.(specs := s.specs[id := spec], status := s.status[id := Unapproved])
    case ApproveJob(id) => s.(status := s.status[id := ApprovedStatus(s.specs[id].vc in s.env.vcs, s.specs[id])])
    case TableWrite(id, written) => s.(status := s.status[id := written])
    case Poll(o) =>
      var effect := EffectOf(s.memory, s.status[o.id], o);
      s.(memory := MemoryAfter(s.memory, o),
         status := if effect.status.Some? then s.status[o.id := effect.status.value] else s.status)
    case Round(_, _, outcome) =>
      AfterRound(s, outcome.marked, if outcome.Decided? then outcome.actions else [])
    case LauncherSubmit(id, result) =>
      s.(submits := s.submits - {id}, status := s.status[id := TaskStatus(s.status[id], SubmitTask(id, result))])
    case LauncherKill(id, errors) =>
      s.(kills := s.kills - {id}, status := s.status[id := TaskStatus(s.status[id], KillTask(id, Queued, errors))])
    case Recount(env', _) => s.(env := env')
  }

  // ---- Demand --------------------------------------------------------------------------------------

  ghost function Active(s: State): set<JobId> {
    set id | id in s.status && IsActive(s.status[id])
  }

  /** What will be active once the launcher has drained, if every task succeeds. */
  ghost function Planned(s: State): set<JobId> {
    (Active(s) + s.submits) - s.kills
  }

  ghost function Demand(specs: map<JobId, Spec>, ids: set<JobId>, pool: Pool): nat
    requires ids <= specs.Keys
  {
    if ids == {} then 0
    else
      var id :| id in ids;
      Draw(specs[id], pool) + Demand(specs, ids - {id}, pool)
  }

  ghost predicate WellFormed(s: State) {
    && s.specs.Keys == s.status.Keys
    && s.submits <= s.specs.Keys && s.kills <= s.specs.Keys && s.submits !! s.kills
  }

  ghost predicate WithinLimits(s: State, ids: set<JobId>)
    requires ids <= s.specs.Keys
  {
    forall pool :: Demand(s.specs, ids, pool) <= Max(0, Limit(s.env, pool))
  }

  /** No limit lies above what the configuration allows. */
  ghost predicate Counted(env: Env) {
    forall pool :: Limit(env, pool) <= Max(0, Configured(env, pool))
  }

  ghost predicate Inv(s: State) {
    WellFormed(s) && Counted(s.env) && WithinLimits(s, Planned(s))
  }

  lemma {:induction false} DemandRemove(specs: map<JobId, Spec>, ids: set<JobId>, id: JobId, pool: Pool)
    requires ids <= specs.Keys && id in ids
    ensures Demand(specs, ids, pool) == Draw(specs[id], pool) + Demand(specs, ids - {id}, pool)
    decreases |ids|
  {
    var x :| x in ids && Demand(specs, ids, pool) == Draw(specs[x], pool) + Demand(specs, ids - {x}, pool);
    if x != id {
      DemandRemove(specs, ids - {x}, id, pool);
      DemandRemove(specs, ids - {id}, x, pool);
      assert ids - {x} - {id} == ids - {id} - {x};
    }
  }

  /** Fewer jobs never demand more, and later arrivals do not change what earlier jobs demand. */
  lemma {:induction false} DemandMonotone(specs: map<JobId, Spec>, ids: set<JobId>, specs': map<JobId, Spec>, ids': set<JobId>, pool: Pool)
    requires ids <= ids' <= specs'.Keys && ids <= specs.Keys
    requires forall id | id in ids :: specs[id] == specs'[id]
    ensures Demand(specs, ids, pool) <= Demand(specs', ids', pool)
    decreases |ids|
  {
    if ids == {} {
    } else {
      var id :| id in ids;
      DemandRemove(specs, ids, id, pool);
      DemandRemove(specs', ids', id, pool);
      DemandMonotone(specs, ids - {id}, specs', ids' - {id}, pool);
    }
  }

  ghost function AcceptedIds(jobs: seq<Job>, accept: seq<bool>): set<JobId>
    requires |accept| == |jobs|
  {
    set i | 0 <= i < |jobs| && accept[i] :: jobs[i].id
  }

  /** The total of a selection is the demand of the selected jobs. */
  lemma {:induction false} TotalIsDemand(specs: map<JobId, Spec>, jobs: seq<Job>, accept: seq<bool>, pool: Pool)
    requires |accept| == |jobs| && DistinctIds(jobs)
    requires forall i | 0 <= i < |jobs| :: jobs[i].id in specs && jobs[i].spec == specs[jobs[i].id]
    ensures Total(jobs, accept, pool) == Demand(specs, AcceptedIds(jobs, accept), pool)
  {
    if jobs == [] {
      assert AcceptedIds(jobs, accept) == {};
    } else {
      var n := |jobs| - 1;
      TotalIsDemand(specs, jobs[..n], accept[..n], pool);
      var before, now := AcceptedIds(jobs[..n], accept[..n]), AcceptedIds(jobs, accept);
      if accept[n] {
        assert now == before + {jobs[n].id};
        assert jobs[n].id !in before;
        assert now - {jobs[n].id} == before;
        DemandRemove(specs, now, jobs[n].id, pool);
      } else {
        assert now == before;
      }
    }
  }

  // ---- The order of a round ------------------------------------------------------------------------

  /** Every considered row of the table exactly once, in key order. */
  ghost predicate InOrder(s: State, priorities: Priorities, jobs: seq<Job>) {
    && DistinctIds(jobs)
    && (forall i | 0 <= i < |jobs| :: jobs[i].id in s.specs && jobs[i].id in s.status && IsConsidered(jobs[i].status) &&
                                      jobs[i] == Job(jobs[i].id, s.specs[jobs[i].id], s.status[jobs[i].id]))
    && (forall id | id in s.status && IsConsidered(s.status[id]) :: exists i :: 0 <= i < |jobs| && jobs[i].id == id)
    && (forall i, j | 0 <= i < j < |jobs| :: KeyLeq(priorities, jobs[i], jobs[j]))
  }

  lemma OrderLists(s: State, priorities: Priorities, rows: seq<Job>)
    requires Lists(s, rows)
    ensures InOrder(s, priorities, RoundOrder(priorities, rows))
  {
    var considered, jobs := Considered(rows), RoundOrder(priorities, rows);
    KeyOrderingTotal(priorities);
    SortSorts(KeyOrdering(priorities), considered);
    ConsideredRows(rows);
    forall job ensures job in jobs <==> job in considered {
      assert job in multiset(jobs) <==> job in multiset(considered);
    }
    forall i, j | 0 <= i < j < |jobs| ensures KeyLeq(priorities, jobs[i], jobs[j]) && jobs[i].id != jobs[j].id {
      assert KeyOrdering(priorities)(jobs[i], jobs[j]);
      if jobs[i].id == jobs[j].id {
        assert jobs[i] in jobs && jobs[j] in jobs;
        assert jobs[i] == jobs[j];
        TwiceInMultiset(jobs, i, j);
        OnceInMultiset(considered, jobs[i]);
      }
    }
    forall id | id in s.status && IsConsidered(s.status[id]) ensures exists i :: 0 <= i < |jobs| && jobs[i].id == id {
      var i :| 0 <= i < |rows| && rows[i].id == id;
      assert rows[i] in considered && rows[i] in jobs;
    }
  }

  lemma {:induction false} ConsideredRows(rows: seq<Job>)
    ensures forall job :: job in Considered(rows) <==> job in rows && IsConsidered(job.status)
    ensures DistinctIds(rows) ==> DistinctIds(Considered(rows))
  {
    if rows == [] {
    } else {
      var n := |rows| - 1;
      ConsideredRows(rows[..n]);
      assert rows == rows[..n] + [rows[n]];
      if DistinctIds(rows) {
        forall job | job in Considered(rows[..n]) ensures job.id != rows[n].id {
          assert job in rows[..n];
        }
      }
    }
  }

  lemma TwiceInMultiset(jobs: seq<Job>, i: nat, j: nat)
    requires i < j < |jobs| && jobs[i] == jobs[j]
    ensures multiset(jobs)[jobs[i]] >= 2
  {
    assert jobs == jobs[..j] + [jobs[j]] + jobs[j + 1..];
    assert jobs[i] in jobs[..j];
  }

  lemma {:induction false} OnceInMultiset(jobs: seq<Job>, job: Job)
    requires DistinctIds(jobs)
    ensures multiset(jobs)[job] <= 1
  {
    if jobs == [] {
    } else {
      var n := |jobs| - 1;
      OnceInMultiset(jobs[..n], job);
      assert jobs == jobs[..n] + [jobs[n]];
      if job == jobs[n] {
        assert job !in jobs[..n];
      }
    }
  }

  // ---- No active non-preemptible job is denied ------------------------------------------------------

  /** Every job treated before an active non-preemptible one is itself active and non-preemptible. */
  lemma BeforeActive(priorities: Priorities, a: Job, b: Job)
    requires KeyLeq(priorities, a, b) && IsActive(b.status) && !b.spec.preemptible && IsConsidered(a.status)
    ensures IsActive(a.status) && !a.spec.preemptible
  {
    KeyGroups(priorities, a, b);
  }

  lemma ActivePrefix(s: State, priorities: Priorities, jobs: seq<Job>, g: seq<bool>, i: nat)
    requires InOrder(s, priorities, jobs) && |g| == |jobs| && i < |jobs|
    requires IsActive(jobs[i].status) && !jobs[i].spec.preemptible
    ensures AcceptedIds(jobs[..i + 1], g[..i] + [true]) <= Active(s)
  {
    var upTo, picked := jobs[..i + 1], g[..i] + [true];
    forall k | 0 <= k < |upTo| && picked[k] ensures upTo[k].id in Active(s) {
      if k < i { BeforeActive(priorities, jobs[k], jobs[i]); }
    }
  }

  /** An active non-preemptible job and the jobs admitted before it demand no more than all active jobs. */
  lemma ActiveDemand(s: State, priorities: Priorities, jobs: seq<Job>, g: seq<bool>, i: nat, pool: Pool)
    requires InOrder(s, priorities, jobs) && |g| == |jobs| && i < |jobs| && WellFormed(s)
    requires IsActive(jobs[i].status) && !jobs[i].spec.preemptible
    ensures Total(jobs[..i], g[..i], pool) + Draw(jobs[i].spec, pool) <= Demand(s.specs, Active(s), pool)
  {
    var upTo, picked := jobs[..i + 1], g[..i] + [true];
    assert upTo[..i] == jobs[..i] && picked[..i] == g[..i];
    ActivePrefix(s, priorities, jobs, g, i);
    TotalIsDemand(s.specs, upTo, picked, pool);
    DemandMonotone(s.specs, AcceptedIds(upTo, picked), s.specs, Active(s), pool);
  }

  /** In a drained state within its limits, a round admits an active non-preemptible job exactly if its virtual
      cluster exists. */
  lemma ActiveNotDenied(s: State, priorities: Priorities, jobs: seq<Job>, i: nat)
    requires Inv(s) && s.submits == {} && s.kills == {} && InOrder(s, priorities, jobs) && i < |jobs|
    requires IsActive(jobs[i].status) && !jobs[i].spec.preemptible
    ensures Greedy(s.env, jobs)[i] <==> jobs[i].spec.vc in s.env.vcs
  {
    var g, spec := Greedy(s.env, jobs), jobs[i].spec;
    GreedyAt(s.env, jobs, i);
    assert Planned(s) == Active(s);
    var vcPool, userPool := VcPool(spec.vc, spec.device), UserPool(spec.user, spec.vc, spec.device);
    ActiveDemand(s, priorities, jobs, g, i, vcPool);
    ActiveDemand(s, priorities, jobs, g, i, userPool);
    assert Demand(s.specs, Planned(s), vcPool) <= Max(0, Limit(s.env, vcPool));
    assert Demand(s.specs, Planned(s), userPool) <= Max(0, Limit(s.env, userPool));
  }

  // ---- Every step keeps the plan within the limits --------------------------------------------------

  lemma {:induction false} MarkAllKeys(status: map<JobId, Status>, marks: seq<(JobId, Status)>)
    requires forall m | m in marks :: m.0 in status && !IsActive(m.1)
    ensures MarkAll(status, marks).Keys == status.Keys
    ensures forall id | id in status && IsActive(MarkAll(status, marks)[id]) :: IsActive(status[id]) && !Marked(marks, id)
  {
    if marks == [] {
    } else {
      var n := |marks| - 1;
      MarkAllKeys(status, marks[..n]);
    }
  }

  predicate Marked(marks: seq<(JobId, Status)>, id: JobId) {
    exists i | 0 <= i < |marks| :: marks[i].0 == id
  }

  lemma {:induction false} OrphanMarks(env: Env, jobs: seq<Job>)
    ensures forall m | m in Orphans(env, jobs) :: !IsActive(m.1) && exists job :: job in jobs && job.id == m.0
    ensures forall job | job in jobs && job.spec.vc !in env.vcs :: Marked(Orphans(env, jobs), job.id)
  {
    if jobs == [] {
    } else {
      var n := |jobs| - 1;
      OrphanMarks(env, jobs[..n]);
      assert jobs == jobs[..n] + [jobs[n]];
      var before, all := Orphans(env, jobs[..n]), Orphans(env, jobs);
      forall job | job in jobs && job.spec.vc !in env.vcs ensures Marked(all, job.id) {
        if job in jobs[..n] {
          var i :| 0 <= i < |before| && before[i].0 == job.id;
          assert all[i].0 == job.id;
        } else {
          assert all[|before|].0 == job.id;
        }
      }
    }
  }

  /** Who is told to start and who to stop. */
  lemma ActionsSay(env: Env, jobs: seq<Job>, accept: seq<bool>, n: nat)
    requires |accept| == |jobs| && n <= |jobs|
    ensures forall id :: Submit(id) in Actions(env, jobs, accept, n) <==>
                         exists i :: 0 <= i < n && jobs[i].id == id && jobs[i].status == Queued && accept[i]
    ensures forall id :: Preempt(id) in Actions(env, jobs, accept, n) <==>
                         exists i :: 0 <= i < n && jobs[i].id == id && jobs[i].spec.preemptible && IsActive(jobs[i].status) && !accept[i]
  {
    forall id
      ensures Submit(id) in Actions(env, jobs, accept, n) <==>
              exists i :: 0 <= i < n && jobs[i].id == id && jobs[i].status == Queued && accept[i]
      ensures Preempt(id) in Actions(env, jobs, accept, n) <==>
              exists i :: 0 <= i < n && jobs[i].id == id && jobs[i].spec.preemptible && IsActive(jobs[i].status) && !accept[i]
    {
      SubmitsSay(env, jobs, accept, n, id);
      PreemptsSay(env, jobs, accept, n, id);
    }
  }

  lemma {:induction false} SubmitsSay(env: Env, jobs: seq<Job>, accept: seq<bool>, n: nat, id: JobId)
    requires |accept| == |jobs| && n <= |jobs|
    ensures Submit(id) in Actions(env, jobs, accept, n) <==>
            exists i :: 0 <= i < n && jobs[i].id == id && jobs[i].status == Queued && accept[i]
  {
    if n == 0 {
    } else {
      SubmitsSay(env, jobs, accept, n - 1, id);
    }
  }

  lemma {:induction false} PreemptsSay(env: Env, jobs: seq<Job>, accept: seq<bool>, n: nat, id: JobId)
    requires |accept| == |jobs| && n <= |jobs|
    ensures Preempt(id) in Actions(env, jobs, accept, n) <==>
            exists i :: 0 <= i < n && jobs[i].id == id && jobs[i].spec.preemptible && IsActive(jobs[i].status) && !accept[i]
  {
    if n == 0 {
    } else {
      PreemptsSay(env, jobs, accept, n - 1, id);
    }
  }

  /** The orphans of a round are rows of the table, marked with statuses that are not active. */
  lemma RoundMarks(s: State, priorities: Priorities, jobs: seq<Job>, marks: seq<(JobId, Status)>)
    requires InOrder(s, priorities, jobs) && marks <= Orphans(s.env, jobs)
    ensures MarkAll(s.status, marks).Keys == s.status.Keys
    ensures forall id | id in s.status && IsActive(MarkAll(s.status, marks)[id]) :: IsActive(s.status[id]) && !Marked(marks, id)
  {
    OrphanMarks(s.env, jobs);
    forall m | m in marks ensures m.0 in s.status && !IsActive(m.1) {
      assert m in Orphans(s.env, jobs);
      var job :| job in jobs && job.id == m.0;
    }
    MarkAllKeys(s.status, marks);
  }

  /** Submitted jobs are accepted ones, and no job is both submitted and killed. */
  lemma RoundTasks(s: State, priorities: Priorities, jobs: seq<Job>, accept: seq<bool>, id: JobId)
    requires InOrder(s, priorities, jobs) && |accept| == |jobs|
    requires Submit(id) in Actions(s.env, jobs, accept, |jobs|)
    ensures id in AcceptedIds(jobs, accept) && Preempt(id) !in Actions(s.env, jobs, accept, |jobs|)
  {
    ActionsSay(s.env, jobs, accept, |jobs|);
    var i :| 0 <= i < |jobs| && jobs[i].id == id && jobs[i].status == Queued && accept[i];
  }

  /** An active job that a round neither marks nor preempts is accepted. */
  lemma RoundKeepsAccepted(s: State, priorities: Priorities, jobs: seq<Job>, id: JobId)
    requires Inv(s) && s.submits == {} && s.kills == {} && InOrder(s, priorities, jobs)
    requires id in Active(s) && !Marked(Orphans(s.env, jobs), id)
    requires Preempt(id) !in Actions(s.env, jobs, Greedy(s.env, jobs), |jobs|)
    ensures id in AcceptedIds(jobs, Greedy(s.env, jobs))
  {
    var g := Greedy(s.env, jobs);
    var i :| 0 <= i < |jobs| && jobs[i].id == id;
    OrphanMarks(s.env, jobs);
    ActionsSay(s.env, jobs, g, |jobs|);
    assert jobs[i] in jobs;
    if !jobs[i].spec.preemptible {
      ActiveNotDenied(s, priorities, jobs, i);
    }
  }

  /** After a decided round everything the launcher will leave active is an accepted job. */
  lemma RoundPlansAccepted(s: State, priorities: Priorities, jobs: seq<Job>, actions: seq<Action>, accepted: set<JobId>)
    requires Inv(s) && s.submits == {} && s.kills == {} && InOrder(s, priorities, jobs)
    requires actions == Actions(s.env, jobs, Greedy(s.env, jobs), |jobs|)
    requires accepted == AcceptedIds(jobs, Greedy(s.env, jobs))
    ensures var s' := AfterRound(s, Orphans(s.env, jobs), actions);
            WellFormed(s') && Planned(s') <= accepted
  {
    var marks := Orphans(s.env, jobs);
    RoundMarks(s, priorities, jobs, marks);
    forall id | Submit(id) in actions ensures id in accepted && Preempt(id) !in actions {
      RoundTasks(s, priorities, jobs, Greedy(s.env, jobs), id);
    }
    forall id | id in Active(s) && !Marked(marks, id) && Preempt(id) !in actions ensures id in accepted {
      RoundKeepsAccepted(s, priorities, jobs, id);
    }
    PlannedAccepted(s, marks, actions, accepted);
  }

  lemma PlannedAccepted(s: State, marks: seq<(JobId, Status)>, actions: seq<Action>, accepted: set<JobId>)
    requires WellFormed(s) && MarkAll(s.status, marks).Keys == s.status.Keys
    requires forall id | id in s.status && IsActive(MarkAll(s.status, marks)[id]) :: IsActive(s.status[id]) && !Marked(marks, id)
    requires forall id | Submit(id) in actions :: id in accepted && Preempt(id) !in actions
    requires forall id | id in Active(s) && !Marked(marks, id) && Preempt(id) !in actions :: id in accepted
    ensures var s' := AfterRound(s, marks, actions);
            WellFormed(s') && Planned(s') <= accepted
  {
    var s' := AfterRound(s, marks, actions);
    forall id | id in Planned(s') ensures id in accepted {
      if id in s'.submits { assert Submit(id) in actions; }
    }
  }

  lemma {:induction false} RoundApplied(s: State, e: Event, s': State)
    requires Enabled(s, e) && e.Round? && s' == AfterRound(s, e.outcome.marked, if e.outcome.Decided? then e.outcome.actions else [])
    ensures Apply(s, e) == s'
  {
  }

  lemma {:induction false} RoundKeepsInv(s: State, e: Event)
    requires Inv(s) && Enabled(s, e) && e.Round?
    ensures Inv(Apply(s, e))
  {
    var jobs := RoundOrder(e.priorities, e.rows);
    OrderLists(s, e.priorities, e.rows);
    if e.outcome.Decided? {
      RoundIsGreedy(s.env, e.priorities, e.rows);
      DecidedKeepsInv(s, e.priorities, jobs, e.outcome.actions);
      RoundApplied(s, e, AfterRound(s, Orphans(s.env, jobs), e.outcome.actions));
    } else {
      AbortedKeepsInv(s, e.priorities, jobs, e.outcome.marked);
      RoundApplied(s, e, AfterRound(s, e.outcome.marked, []));
    }
  }

  lemma DecidedKeepsInv(s: State, priorities: Priorities, jobs: seq<Job>, actions: seq<Action>)
    requires Inv(s) && s.submits == {} && s.kills == {} && InOrder(s, priorities, jobs)
    requires actions == Actions(s.env, jobs, Greedy(s.env, jobs), |jobs|)
    ensures Inv(AfterRound(s, Orphans(s.env, jobs), actions))
  {
    var g, s' := Greedy(s.env, jobs), AfterRound(s, Orphans(s.env, jobs), actions);
    var accepted := AcceptedIds(jobs, g);
    RoundPlansAccepted(s, priorities, jobs, actions, accepted);
    AcceptedWithin(s, jobs, g, accepted);
    forall pool ensures Demand(s'.specs, Planned(s'), pool) <= Max(0, Limit(s'.env, pool)) {
      DemandMonotone(s.specs, Planned(s'), s.specs, accepted, pool);
    }
  }

  /** The accepted jobs of a round fit together. */
  lemma AcceptedWithin(s: State, jobs: seq<Job>, g: seq<bool>, accepted: set<JobId>)
    requires g == Greedy(s.env, jobs) && accepted == AcceptedIds(jobs, g) && DistinctIds(jobs)
    requires forall i | 0 <= i < |jobs| :: jobs[i].id in s.specs && jobs[i].spec == s.specs[jobs[i].id]
    ensures accepted <= s.specs.Keys && WithinLimits(s, accepted)
  {
    GreedyFits(s.env, jobs);
    forall pool ensures Demand(s.specs, accepted, pool) <= Max(0, Limit(s.env, pool)) {
      TotalIsDemand(s.specs, jobs, g, pool);
    }
  }

  lemma AbortedKeepsInv(s: State, priorities: Priorities, jobs: seq<Job>, marks: seq<(JobId, Status)>)
    requires Inv(s) && s.submits == {} && s.kills == {} && InOrder(s, priorities, jobs) && marks <= Orphans(s.env, jobs)
    ensures Inv(AfterRound(s, marks, []))
  {
    RoundMarks(s, priorities, jobs, marks);
    ShrunkPlan(s, AfterRound(s, marks, []));
  }

  /** A step that only takes jobs out of the plan, and does not lower limits, keeps the invariant. */
  lemma ShrunkPlan(s: State, s': State)
    requires Inv(s) && WellFormed(s') && Planned(s') <= Planned(s)
    requires forall id | id in s.specs :: id in s'.specs && s'.specs[id] == s.specs[id]
    requires s.env == s'.env
    ensures Inv(s')
  {
    forall pool ensures Demand(s'.specs, Planned(s'), pool) <= Max(0, Limit(s'.env, pool)) {
      DemandMonotone(s'.specs, Planned(s'), s.specs, Planned(s), pool);
    }
  }

  lemma {:induction false} UsageIsDemand(specs: map<JobId, Spec>, ids: set<JobId>, vc: string, device: string)
    requires ids <= specs.Keys && forall id | id in ids :: TotalGpu(specs[id]) >= 0
    ensures Usage(specs, ids, vc, device) == Demand(specs, ids, VcPool(vc, device))
    decreases |ids|
  {
    if ids == {} {
    } else {
      var id :| id in ids && Usage(specs, ids, vc, device) == Usage(specs, ids - {id}, vc, device) +
                               if specs[id].vc == vc && specs[id].device == device then TotalGpu(specs[id]) else 0;
      DemandRemove(specs, ids, id, VcPool(vc, device));
      UsageIsDemand(specs, ids - {id}, vc, device);
    }
  }

  /** The recounted limit of a virtual cluster is its quota, or what is in use plus the free share if that is less. */
  lemma RecountedLimit(s: State, env: Env, division: Division, vc: string, d: string)
    requires s.specs.Keys == s.status.Keys && IsRecount(s, env, division) && vc in env.vcs && d in env.vcs[vc].total
    ensures var pool := VcPool(vc, d);
            Min(Configured(env, pool), Demand(s.specs, Active(s), pool)) <= Limit(env, pool) <= Configured(env, pool)
  {
    var share := Quota.Share(env.vcs[vc].total[d], Usage(s.specs, Active(s), vc, d), At(division.weights, (vc, d)));
    Quota.RecountCoversUse(At(division.free, d), At(division.sums, d), share);
    UsageIsDemand(s.specs, Active(s), vc, d);
  }

  /** However much hardware is lost, a recount in a drained state keeps the active jobs within the new limits, as long
      as no configured quota is cut below what is in use. */
  lemma RecountKeepsInv(s: State, e: Event)
    requires Inv(s) && e.Recount? && Enabled(s, e)
    ensures Inv(Apply(s, e))
  {
    var s', env := Apply(s, e), e.env;
    assert Planned(s') == Active(s) == Planned(s);
    forall pool ensures Limit(env, pool) <= Max(0, Configured(env, pool))
    {
      if pool.VcPool? && pool.vc in env.vcs && pool.device in env.vcs[pool.vc].total {
        RecountedLimit(s, env, e.division, pool.vc, pool.device);
      }
    }
    forall pool ensures Demand(s.specs, Active(s), pool) <= Max(0, Limit(env, pool)) {
      assert Demand(s.specs, Active(s), pool) <= Max(0, Limit(s.env, pool)) <= Max(0, Configured(s.env, pool));
      assert Demand(s.specs, Active(s), pool) <= Max(0, Configured(env, pool));
      if pool.VcPool? && pool.vc in env.vcs && pool.device in env.vcs[pool.vc].total {
        RecountedLimit(s, env, e.division, pool.vc, pool.device);
      }
    }
  }

  lemma StepKeepsInv(s: State, e: Event)
    requires Inv(s) && Enabled(s, e) && (e.LauncherKill? ==> !e.errors)
    ensures Inv(Apply(s, e))
  {
    if e.Round? {
      RoundKeepsInv(s, e);
    } else if e.Recount? {
      RecountKeepsInv(s, e);
    } else {
      ShrunkPlan(s, Apply(s, e));
    }
  }

  // ---- The limits in devices ------------------------------------------------------------------------

  /** Any list of different scheduling and running jobs asks, device by device, for no more than each virtual cluster
      can schedule and, as far as they are not preemptible, each user may use. */
  ghost predicate ActiveHeld(s: State)
    requires s.specs.Keys == s.status.Keys
  {
    forall ids: seq<JobId>, user, vc, device | AreActive(s, ids) :: Held(s, ids, user, vc, device)
  }

  ghost predicate Held(s: State, ids: seq<JobId>, user: string, vc: string, device: string)
    requires forall id | id in ids :: id in s.specs
  {
    && VcAsked(s.specs, ids, vc, device) <= AtLeastZero(VcHolds(s.env, vc, device))
    && UserAsked(s.specs, ids, user, vc, device) <= AtLeastZero(UserHolds(s.env, vc, device))
  }

  ghost predicate AreActive(s: State, ids: seq<JobId>) {
    && (forall i, j | 0 <= i < j < |ids| :: ids[i] != ids[j])
    && (forall i | 0 <= i < |ids| :: ids[i] in s.status && s.status[ids[i]] in {Scheduling, Running})
  }

  lemma {:induction false} ListedDemand(specs: map<JobId, Spec>, ids: seq<JobId>, user: string, vc: string, device: string)
    requires (forall i, j | 0 <= i < j < |ids| :: ids[i] != ids[j]) && forall id | id in ids :: id in specs
    ensures VcAsked(specs, ids, vc, device) == Demand(specs, (set id | id in ids), VcPool(vc, device))
    ensures UserAsked(specs, ids, user, vc, device) == Demand(specs, (set id | id in ids), UserPool(user, vc, device))
  {
    var all := set id | id in ids;
    if ids == [] {
    } else {
      ListedDemand(specs, ids[1..], user, vc, device);
      assert all - {ids[0]} == set id | id in ids[1..];
      DemandRemove(specs, all, ids[0], VcPool(vc, device));
      DemandRemove(specs, all, ids[0], UserPool(user, vc, device));
      DrawIsAsked(specs[ids[0]], user, vc, device);
    }
  }

  lemma WithinIsHeld(s: State)
    requires s.specs.Keys == s.status.Keys && WithinLimits(s, Active(s))
    ensures ActiveHeld(s)
  {
    forall ids: seq<JobId>, user, vc, device | AreActive(s, ids) ensures Held(s, ids, user, vc, device) {
      HeldAt(s, ids, user, vc, device);
    }
  }

  lemma HeldAt(s: State, ids: seq<JobId>, user: string, vc: string, device: string)
    requires s.specs.Keys == s.status.Keys && WithinLimits(s, Active(s)) && AreActive(s, ids)
    ensures Held(s, ids, user, vc, device)
  {
    var all, vcPool, userPool := (set id | id in ids), VcPool(vc, device), UserPool(user, vc, device);
    ListedDemand(s.specs, ids, user, vc, device);
    LimitIsHeld(s.env, user, vc, device);
    DemandMonotone(s.specs, all, s.specs, Active(s), vcPool);
    DemandMonotone(s.specs, all, s.specs, Active(s), userPool);
    assert Demand(s.specs, Active(s), vcPool) <= Max(0, Limit(s.env, vcPool));
    assert Demand(s.specs, Active(s), userPool) <= Max(0, Limit(s.env, userPool));
  }

  /** After a recount every virtual cluster can schedule its configured devices, or those its active jobs ask for and
      its proportion `n` of the free ones, whichever is less. */
  lemma RecountedShare(s: State, env: Env, division: Division, vc: string, d: string, ids: seq<JobId>, n: nat)
    requires s.specs.Keys == s.status.Keys && IsRecount(s, env, division) && vc in env.vcs && d in env.vcs[vc].total
    requires AreActive(s, ids) && forall id | id in s.status && s.status[id] in {Scheduling, Running} :: id in ids
    requires var (free, sum, weight) := (At(division.free, d), At(division.sums, d), At(division.weights, (vc, d)));
             if sum == 0 then n == 0 else n * sum <= Min(free, sum) * weight < (n + 1) * sum
    ensures VcHolds(env, vc, d) == Min(env.vcs[vc].total[d], VcAsked(s.specs, ids, vc, d) + n)
  {
    var share := Quota.Share(env.vcs[vc].total[d], Usage(s.specs, Active(s), vc, d), At(division.weights, (vc, d)));
    Quota.SchedulableExactly(At(division.free, d), At(division.sums, d), share, n);
    UsageIsDemand(s.specs, Active(s), vc, d);
    assert Active(s) == set id | id in ids;
    ListedDemand(s.specs, ids, "", vc, d);
    LimitIsHeld(env, "", vc, d);
  }

  // ---- Whole runs ----------------------------------------------------------------------------------

  ghost predicate Initial(s: State) {
    s.specs == map[] && s.status == map[] && s.submits == {} && s.kills == {} && Counted(s.env)
  }

  /** `states` is the run of `events` from `states[0]`. */
  ghost predicate Run(states: seq<State>, events: seq<Event>) {
    && |states| == |events| + 1
    && forall i | 0 <= i < |events| :: Enabled(states[i], events[i]) && states[i + 1] == Apply(states[i], events[i])
  }

  ghost predicate KillsSucceed(events: seq<Event>) {
    forall i | 0 <= i < |events| :: events[i].LauncherKill? ==> !events[i].errors
  }

  lemma {:induction false} RunKeepsInv(states: seq<State>, events: seq<Event>, n: nat)
    requires Run(states, events) && KillsSucceed(events) && Inv(states[0]) && n < |states|
    ensures Inv(states[n])
  {
    if n == 0 {
    } else {
      RunKeepsInv(states, events, n - 1);
      StepKeepsInv(states[n - 1], events[n - 1]);
    }
  }

  /** Safety. In every run from the empty table whose kills succeed, whatever hardware comes and goes between the
      rounds, whenever the launcher is drained the scheduling and running jobs of every virtual cluster stay within
      its schedulable devices and the non-preemptible ones of every user within the user's quota; and no round denies
      an active non-preemptible job of an existing virtual cluster. */
  lemma SafeRuns(states: seq<State>, events: seq<Event>, n: nat)
    requires Run(states, events) && KillsSucceed(events) && Initial(states[0]) && n < |states|
    ensures states[n].specs.Keys == states[n].status.Keys
    ensures states[n].submits == states[n].kills == {} ==> WithinLimits(states[n], Active(states[n])) && ActiveHeld(states[n])
    ensures n < |events| && events[n].Round? ==>
              var jobs := RoundOrder(events[n].priorities, events[n].rows);
              forall i | 0 <= i < |jobs| ::
                IsActive(jobs[i].status) && !jobs[i].spec.preemptible && jobs[i].spec.vc in states[n].env.vcs ==>
                  TwoPass(states[n].env, jobs)[i]
  {
    assert Planned(states[0]) == {};
    RunKeepsInv(states, events, n);
    if states[n].submits == states[n].kills == {} {
      assert Planned(states[n]) == Active(states[n]);
      WithinIsHeld(states[n]);
    }
    if n < |events| && events[n].Round? {
      var e := events[n];
      var jobs := RoundOrder(e.priorities, e.rows);
      RoundIsGreedy(states[n].env, e.priorities, e.rows);
      OrderLists(states[n], e.priorities, e.rows);
      forall i | 0 <= i < |jobs| && IsActive(jobs[i].status) && !jobs[i].spec.preemptible && jobs[i].spec.vc in states[n].env.vcs
        ensures TwoPass(states[n].env, jobs)[i]
      {
        ActiveNotDenied(states[n], e.priorities, jobs, i);
      }
    }
  }

  // ---- Why the launcher must be drained and its kills must succeed ---------------------------------

  /** The active jobs of some pool demand more than its limit. */
  ghost predicate Overcommits(s: State) {
    s.specs.Keys == s.status.Keys && exists pool :: Demand(s.specs, Active(s), pool) > Max(0, Limit(s.env, pool))
  }

  function OneGpu(preemptible: bool): Spec {
    Spec("user", "vc", "gpu", 1, None, preemptible, "")
  }

  /** One device, held by a preemptible job while a non-preemptible one waits. */
  function Contended(): State {
    State(map["p" := OneGpu(true), "n" := OneGpu(false)], map["p" := Running, "n" := Queued],
          Env(map["vc" := Vc(map["gpu" := 1], map[], map[])], map["gpu" := 1], map[]), {}, {}, Memory(map[], map[]))
  }

  function ContendedOrder(): seq<Job> {
    [Job("n", OneGpu(false), Queued), Job("p", OneGpu(true), Running)]
  }

  lemma ContendedSorted()
    ensures RoundOrder(map[], [ContendedOrder()[1], ContendedOrder()[0]]) == ContendedOrder()
  {
    var (n, p) := (ContendedOrder()[0], ContendedOrder()[1]);
    var rows := [p, n];
    assert rows[..1] == [p] && [p][..0] == [];
    assert Considered([p]) == [p];
    assert Considered(rows) == rows;
    KeySplit(map[], n, p);
    var leq := KeyOrdering(map[]);
    assert Sort(leq, [p]) == [p];
    assert !leq(p, n);
    assert Insert(leq, [p], n) == [n, p];
  }

  lemma ContendedGreedy()
    ensures Greedy(Contended().env, ContendedOrder()) == [true, false]
  {
    var jobs, env := ContendedOrder(), Contended().env;
    var pool := VcPool("vc", "gpu");
    assert jobs[..1] == [jobs[0]] && [jobs[0]][..0] == [];
    assert Limit(env, pool) == 1 && Limit(env, UserPool("user", "vc", "gpu")) == 9999;
    assert Greedy(env, [jobs[0]]) == [true];
    assert Total([jobs[0]], [true], pool) == 1 by {
      assert [true][..0] == [];
    }
  }

  lemma ContendedOutcome()
    ensures IsOutcome(Contended().env, ContendedOrder(), Decided([], [Submit("n"), Preempt("p")]))
  {
    var jobs, env := ContendedOrder(), Contended().env;
    ContendedGreedy();
    TwoPassIsGreedy(env, jobs);
    assert jobs[..1] == [jobs[0]] && [jobs[0]][..0] == [];
    assert Orphans(env, [jobs[0]]) == [];
    assert Orphans(env, jobs) == [];
    assert Actions(env, jobs, [true, false], 1) == [Submit("n")];
    assert Actions(env, jobs, [true, false], 2) == [Submit("n"), Preempt("p")];
  }

  lemma ContendedInv()
    ensures Inv(Contended()) && Planned(Contended()) == Active(Contended()) == {"p"}
  {
    var s0 := Contended();
    assert Planned(s0) == Active(s0) == {"p"};
    forall pool ensures Demand(s0.specs, {"p"}, pool) <= Max(0, Limit(s0.env, pool)) {
      DemandRemove(s0.specs, {"p"}, "p", pool);
      assert Draw(OneGpu(true), pool) <= Max(0, Limit(s0.env, pool));
    }
  }

  lemma ContendedOvercommit(s: State)
    requires s.specs == Contended().specs && s.env == Contended().env && s.status.Keys == {"p", "n"} && Active(s) == {"p", "n"}
    ensures Overcommits(s)
  {
    var pool := VcPool("vc", "gpu");
    DemandRemove(s.specs, {"p", "n"}, "p", pool);
    assert {"p", "n"} - {"p"} == {"n"};
    DemandRemove(s.specs, {"n"}, "n", pool);
    assert Limit(s.env, pool) == 1;
  }

  lemma ContendedLists()
    ensures Lists(Contended(), [ContendedOrder()[1], ContendedOrder()[0]])
  {
    var rows := [ContendedOrder()[1], ContendedOrder()[0]];
    assert rows[0].id == "p" && rows[1].id == "n";
  }

  lemma RoundEnabled(s: State, e: Event, jobs: seq<Job>)
    requires e.Round? && s.submits == {} && s.kills == {} && Lists(s, e.rows)
    requires jobs == RoundOrder(e.priorities, e.rows) && MayEnd(s.env, jobs, e.outcome)
    ensures Enabled(s, e)
  {
  }

  function ContendedRound(): Event {
    Round(map[], [ContendedOrder()[1], ContendedOrder()[0]], Decided([], [Submit("n"), Preempt("p")]))
  }

  lemma ContendedRoundEnabled()
    ensures Enabled(Contended(), ContendedRound())
  {
    ContendedSorted();
    ContendedOutcome();
    ContendedLists();
    RoundEnabled(Contended(), ContendedRound(), ContendedOrder());
  }

  lemma SwapApplied(s: State)
    requires s.specs.Keys == {"p", "n"}
    ensures AfterRound(s, [], [Submit("n"), Preempt("p")]) == s.(submits := {"n"}, kills := {"p"})
  {
  }

  function Tasked(): State {
    Contended().(submits := {"n"}, kills := {"p"})
  }

  function Overcommitted(): State {
    Tasked().(status := map["p" := Running, "n" := Scheduling], submits := {})
  }

  lemma TaskedSteps()
    ensures Enabled(Tasked(), LauncherSubmit("n", Created)) && Apply(Tasked(), LauncherSubmit("n", Created)) == Overcommitted()
    ensures Enabled(Overcommitted(), LauncherKill("p", true))
    ensures Apply(Overcommitted(), LauncherKill("p", true)) == Overcommitted().(kills := {})
  {
    assert Overcommitted().status["p" := Running] == Overcommitted().status;
    assert Tasked().status["n" := Scheduling] == Overcommitted().status;
    assert Tasked().submits - {"n"} == {} && Tasked().kills - {"p"} == {};
  }

  lemma OvercommittedStates()
    ensures Overcommits(Overcommitted()) && Overcommits(Overcommitted().(kills := {}))
  {
    var s2, s3 := Overcommitted(), Overcommitted().(kills := {});
    assert Active(s2) == {"p", "n"} && Active(s3) == {"p", "n"};
    ContendedOvercommit(s2);
    ContendedOvercommit(s3);
  }

  /** A drained state within its limits, one round, and the launcher's first task: the round submits the waiting
      job and preempts the running one, and until the kill is carried out both are active on one device. They
      stay so when the kill meets errors, although the launcher is drained then. */
  lemma KillErrorsOvercommit()
    ensures Inv(Contended()) && Planned(Contended()) == Active(Contended())
    ensures Enabled(Contended(), ContendedRound()) && Apply(Contended(), ContendedRound()) == Tasked()
    ensures Enabled(Tasked(), LauncherSubmit("n", Created))
    ensures Apply(Tasked(), LauncherSubmit("n", Created)) == Overcommitted() && Overcommits(Overcommitted())
    ensures Enabled(Overcommitted(), LauncherKill("p", true))
    ensures var end := Apply(Overcommitted(), LauncherKill("p", true));
            end.submits == end.kills == {} && Overcommits(end)
  {
    ContendedInv();
    ContendedRoundEnabled();
    SwapApplied(Contended());
    TaskedSteps();
    OvercommittedStates();
  }
}

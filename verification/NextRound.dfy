/** Two rounds in a row: when the launcher has carried out the first and nothing else happened, the second has nothing
    to do (src/ClusterManager/job_manager.py, TakeJobActions). */
module NextRound {
  import opened Jobs
  import opened Resources
  import opened Admission
  import opened SortKey
  import opened Scheduler
  import opened Launcher
  import opened Lifecycle
  import opened Draining

  ghost predicate AllSucceed(events: seq<Event>) {
    forall i | 0 <= i < |events| ::
      && (events[i].LauncherSubmit? ==> events[i].result == Created)
      && (events[i].LauncherKill? ==> !events[i].errors)
  }

  /** The status of a row once the tasks taken between `s` and `t` have succeeded. */
  function Carried(s: State, t: State, id: JobId): Status
    requires id in s.status
  {
    if id in s.submits - t.submits then Scheduling else if id in s.kills - t.kills then Queued else s.status[id]
  }

  lemma {:induction false} StatusSoFar(states: seq<State>, events: seq<Event>, n: nat, id: JobId)
    requires Drains(states, events) && AllSucceed(events) && WellFormed(states[0]) && n < |states| && id in states[0].status
    ensures id in states[n].status && states[n].status[id] == Carried(states[0], states[n], id)
  {
    if n == 0 {
    } else {
      StatusSoFar(states, events, n - 1, id);
      DrainFollows(states, events, n - 1);
      CarriedStep(states[0], states[n - 1], events[n - 1], id);
    }
  }

  lemma CarriedStep(s0: State, s: State, e: Event, id: JobId)
    requires WellFormed(s0) && Follows(s0, s) && Enabled(s, e) && IsTask(e) && AllSucceed([e])
    requires id in s0.status && id in s.status && s.status[id] == Carried(s0, s, id)
    ensures id in Apply(s, e).status && Apply(s, e).status[id] == Carried(s0, Apply(s, e), id)
  {
    assert [e][0] == e;
  }

  // ---- What a carried-out round has settled ---------------------------------------------------------

  /** Every job the next round considers had an existing virtual cluster and is active exactly if it was accepted;
      and every accepted job is active. */
  ghost predicate Settled(t: State, jobs: seq<Job>, accepted: set<JobId>) {
    && (forall id | id in t.status && IsConsidered(t.status[id]) ::
          && (exists i :: 0 <= i < |jobs| && jobs[i].id == id && jobs[i].spec.vc in t.env.vcs)
          && (IsActive(t.status[id]) <==> id in accepted))
    && (forall id | id in accepted :: id in t.status && IsActive(t.status[id]))
  }

  lemma {:induction false} OrphansAre(env: Env, jobs: seq<Job>, id: JobId)
    ensures Marked(Orphans(env, jobs), id) <==> exists i :: 0 <= i < |jobs| && jobs[i].id == id && jobs[i].spec.vc !in env.vcs
    ensures forall m | m in Orphans(env, jobs) :: m.1 == Killing || m.1 == Killed
  {
    if jobs == [] {
    } else {
      var n := |jobs| - 1;
      OrphansAre(env, jobs[..n], id);
      var before, all := Orphans(env, jobs[..n]), Orphans(env, jobs);
      if Marked(before, id) {
        var i :| 0 <= i < |before| && before[i].0 == id;
        assert all[i].0 == id;
      }
      if jobs[n].id == id && jobs[n].spec.vc !in env.vcs {
        assert all[|before|].0 == id;
      }
    }
  }

  lemma {:induction false} MarkedStatus(status: map<JobId, Status>, marks: seq<(JobId, Status)>, id: JobId)
    requires id in status && forall m | m in marks :: m.1 == Killing || m.1 == Killed
    ensures id in MarkAll(status, marks)
    ensures if Marked(marks, id) then MarkAll(status, marks)[id] in {Killing, Killed} else MarkAll(status, marks)[id] == status[id]
  {
    if marks == [] {
    } else {
      var n := |marks| - 1;
      MarkedStatus(status, marks[..n], id);
      if Marked(marks[..n], id) {
        var i :| 0 <= i < n && marks[..n][i].0 == id;
        assert marks[i].0 == id;
      }
      if marks[n].0 == id { assert Marked(marks, id); }
    }
  }

  /** Who is submitted and who is killed among the jobs of a round. */
  lemma TasksFor(s: State, priorities: Priorities, jobs: seq<Job>, g: seq<bool>, marks: seq<(JobId, Status)>, i: nat)
    requires InOrder(s, priorities, jobs) && |g| == |jobs| && i < |jobs|
    ensures var s' := AfterRound(s, marks, Actions(s.env, jobs, g, |jobs|));
            && (jobs[i].id in s'.submits <==> jobs[i].status == Queued && g[i])
            && (jobs[i].id in s'.kills <==> jobs[i].spec.preemptible && IsActive(jobs[i].status) && !g[i])
  {
    SubmitsSay(s.env, jobs, g, |jobs|, jobs[i].id);
    PreemptsSay(s.env, jobs, g, |jobs|, jobs[i].id);
    OnlyIndex(jobs, i);
  }

  lemma OnlyIndex(jobs: seq<Job>, i: nat)
    requires DistinctIds(jobs) && i < |jobs|
    ensures forall k | 0 <= k < |jobs| && jobs[k].id == jobs[i].id :: k == i
  {
  }

  /** A round leaves the status of its jobs as it is, except that orphans drop out. */
  lemma {:induction false} MarkedFor(s: State, jobs: seq<Job>, marks: seq<(JobId, Status)>, i: nat)
    requires DistinctIds(jobs) && i < |jobs| && jobs[i].id in s.status && jobs[i].status == s.status[jobs[i].id]
    requires marks == Orphans(s.env, jobs)
    ensures jobs[i].id in MarkAll(s.status, marks)
    ensures if jobs[i].spec.vc in s.env.vcs then MarkAll(s.status, marks)[jobs[i].id] == jobs[i].status
            else !IsConsidered(MarkAll(s.status, marks)[jobs[i].id])
  {
    OrphanAt(s.env, jobs, i);
    DropsOut(s.status, marks, jobs[i].id);
  }

  lemma {:induction false} DropsOut(status: map<JobId, Status>, marks: seq<(JobId, Status)>, id: JobId)
    requires id in status && forall m | m in marks :: m.1 == Killing || m.1 == Killed
    ensures id in MarkAll(status, marks)
    ensures if Marked(marks, id) then !IsConsidered(MarkAll(status, marks)[id]) else MarkAll(status, marks)[id] == status[id]
  {
    MarkedStatus(status, marks, id);
  }

  lemma {:induction false} OrphanAt(env: Env, jobs: seq<Job>, i: nat)
    requires DistinctIds(jobs) && i < |jobs|
    ensures Marked(Orphans(env, jobs), jobs[i].id) <==> jobs[i].spec.vc !in env.vcs
    ensures forall m | m in Orphans(env, jobs) :: m.1 == Killing || m.1 == Killed
  {
    OrphansAre(env, jobs, jobs[i].id);
    OnlyIndex(jobs, i);
  }

  /** The status of job `i` of a round once it has been carried out without failures. */
  lemma AfterBoth(s: State, priorities: Priorities, jobs: seq<Job>, g: seq<bool>, s': State, t: State, i: nat)
    requires InOrder(s, priorities, jobs) && |g| == |jobs| && i < |jobs| && s.specs.Keys == s.status.Keys
    requires s' == AfterRound(s, Orphans(s.env, jobs), Actions(s.env, jobs, g, |jobs|))
    requires jobs[i].id in s'.status && jobs[i].id in t.status && t.submits == {} && t.kills == {}
    requires t.status[jobs[i].id] == Carried(s', t, jobs[i].id)
    requires g[i] ==> jobs[i].spec.vc in s.env.vcs
    requires IsActive(jobs[i].status) && !jobs[i].spec.preemptible && jobs[i].spec.vc in s.env.vcs ==> g[i]
    ensures g[i] ==> IsActive(t.status[jobs[i].id])
    ensures !g[i] && jobs[i].spec.vc in s.env.vcs ==> t.status[jobs[i].id] == Queued
    ensures !g[i] && jobs[i].spec.vc !in s.env.vcs && !jobs[i].spec.preemptible ==> !IsConsidered(t.status[jobs[i].id])
  {
    TasksFor(s, priorities, jobs, g, Orphans(s.env, jobs), i);
    MarkedFor(s, jobs, Orphans(s.env, jobs), i);
    assert IsConsidered(jobs[i].status);
  }

  /** A row the round did not consider is still not considered. */
  lemma OutsideStays(s: State, priorities: Priorities, jobs: seq<Job>, g: seq<bool>, t: State, id: JobId)
    requires InOrder(s, priorities, jobs) && |g| == |jobs| && id in s.status && forall i | 0 <= i < |jobs| :: jobs[i].id != id
    requires var s' := AfterRound(s, Orphans(s.env, jobs), Actions(s.env, jobs, g, |jobs|));
             id in s'.status && id in t.status && t.status[id] == Carried(s', t, id)
    ensures !IsConsidered(t.status[id])
  {
    ActionsSay(s.env, jobs, g, |jobs|);
    OrphansAre(s.env, jobs, id);
    MarkedStatus(s.status, Orphans(s.env, jobs), id);
  }

  /** `t` is `s` after a decided round whose tasks were all carried out. */
  ghost predicate CarriedOut(s: State, jobs: seq<Job>, t: State) {
    var s' := AfterRound(s, Orphans(s.env, jobs), Actions(s.env, jobs, Greedy(s.env, jobs), |jobs|));
    && t.specs == s.specs && t.env == s.env && t.submits == {} && t.kills == {} && s'.status.Keys == t.status.Keys == s.status.Keys
    && forall id | id in t.status :: t.status[id] == Carried(s', t, id)
  }

  lemma RoundSettles(s: State, priorities: Priorities, jobs: seq<Job>, t: State, accepted: set<JobId>)
    requires Inv(s) && s.submits == {} && s.kills == {} && InOrder(s, priorities, jobs) && CarriedOut(s, jobs, t)
    requires !SecondPassFails(s.env, jobs) && accepted == AcceptedIds(jobs, Greedy(s.env, jobs))
    ensures Settled(t, jobs, accepted)
  {
    var g := Greedy(s.env, jobs);
    var s' := AfterRound(s, Orphans(s.env, jobs), Actions(s.env, jobs, g, |jobs|));
    GreedyFits(s.env, jobs);
    forall i | 0 <= i < |jobs|
      ensures g[i] ==> IsActive(t.status[jobs[i].id])
      ensures IsConsidered(t.status[jobs[i].id]) ==> jobs[i].spec.vc in s.env.vcs && (g[i] <==> IsActive(t.status[jobs[i].id]))
    {
      if IsActive(jobs[i].status) && !jobs[i].spec.preemptible { ActiveNotDenied(s, priorities, jobs, i); }
      AfterBoth(s, priorities, jobs, g, s', t, i);
    }
    forall id | id in t.status && IsConsidered(t.status[id])
      ensures exists i :: 0 <= i < |jobs| && jobs[i].id == id && jobs[i].spec.vc in t.env.vcs
      ensures IsActive(t.status[id]) <==> id in accepted
    {
      if forall i | 0 <= i < |jobs| :: jobs[i].id != id {
        OutsideStays(s, priorities, jobs, g, t, id);
      } else {
        var i :| 0 <= i < |jobs| && jobs[i].id == id;
        AcceptedAt(jobs, g, i);
      }
    }
  }

  lemma AcceptedAt(jobs: seq<Job>, g: seq<bool>, i: nat)
    requires |g| == |jobs| && i < |jobs| && DistinctIds(jobs)
    ensures jobs[i].id in AcceptedIds(jobs, g) <==> g[i]
  {
    assert forall k | 0 <= k < |jobs| && jobs[k].id == jobs[i].id :: k == i;
  }

  // ---- The next round accepts the same jobs ----------------------------------------------------------

  /** A round over `jobs` in state `s`, carried out, and the order of the next round over `jobs'` in state `t`; neither the
      priorities nor the order of the rows need be the same. */
  ghost predicate TwoRounds(s: State, priorities: Priorities, jobs: seq<Job>, accepted: set<JobId>,
                            t: State, priorities': Priorities, jobs': seq<Job>)
  {
    && InOrder(s, priorities, jobs) && accepted == AcceptedIds(jobs, Greedy(s.env, jobs))
    && InOrder(t, priorities', jobs') && t.specs == s.specs && t.env == s.env && Settled(t, jobs, accepted)
  }

  /** The jobs among the first `k` that were accepted. */
  ghost function Ahead(jobs: seq<Job>, k: nat, accepted: set<JobId>): set<JobId>
    requires k <= |jobs|
  {
    set m | 0 <= m < k && jobs[m].id in accepted :: jobs[m].id
  }

  /** A job the first round rejected now comes after every job accepted before it. */
  lemma StaysAhead(s: State, priorities: Priorities, jobs: seq<Job>, accepted: set<JobId>,
                   t: State, priorities': Priorities, jobs': seq<Job>, j: nat, i: nat, k: nat)
    requires TwoRounds(s, priorities, jobs, accepted, t, priorities', jobs')
    requires j < i < |jobs| && k < |jobs'| && jobs[i].id == jobs'[k].id && jobs'[k].id !in accepted && jobs[j].id in accepted
    ensures jobs[j].id in Ahead(jobs', k, accepted)
  {
    var m := IndexOf(t, priorities', jobs', jobs[j].id);
    NotBehind(priorities, jobs[j], jobs[i], priorities', jobs'[m], jobs'[k]);
    assert m <= k;
  }

  lemma IndexOf(t: State, priorities: Priorities, jobs: seq<Job>, id: JobId) returns (m: nat)
    requires InOrder(t, priorities, jobs) && id in t.status && IsConsidered(t.status[id])
    ensures m < |jobs| && jobs[m].id == id && jobs[m].status == t.status[id]
  {
    m :| 0 <= m < |jobs| && jobs[m].id == id;
  }

  /** If a job came before another and is now active while the other is queued, it is not behind it now. */
  lemma NotBehind(priorities: Priorities, a: Job, r: Job, priorities': Priorities, a': Job, r': Job)
    requires KeyLeq(priorities, a, r) && a'.spec == a.spec && r'.spec == r.spec
    requires IsActive(a'.status) && r'.status == Queued
    ensures !KeyLeq(priorities', r', a')
  {
    KeyGroups(priorities, a, r);
    if KeyLeq(priorities', r', a') { KeyGroups(priorities', r', a'); }
  }

  lemma AllStayAhead(s: State, priorities: Priorities, jobs: seq<Job>, accepted: set<JobId>,
                     t: State, priorities': Priorities, jobs': seq<Job>, i: nat, k: nat, g: seq<bool>)
    requires TwoRounds(s, priorities, jobs, accepted, t, priorities', jobs')
    requires i < |jobs| && k < |jobs'| && jobs[i].id == jobs'[k].id && jobs'[k].id !in accepted
    requires g == Greedy(s.env, jobs)
    ensures AcceptedIds(jobs[..i], g[..i]) <= Ahead(jobs', k, accepted)
  {
    forall id | id in AcceptedIds(jobs[..i], g[..i]) ensures id in Ahead(jobs', k, accepted) {
      var j :| 0 <= j < i && g[..i][j] && jobs[..i][j].id == id;
      AcceptedAt(jobs, g, j);
      StaysAhead(s, priorities, jobs, accepted, t, priorities', jobs', j, i, k);
    }
  }

  /** A job that was accepted fits beside any other accepted jobs. */
  lemma AcceptedFits(s: State, jobs: seq<Job>, accepted: set<JobId>, ahead: set<JobId>, id: JobId, pool: Pool)
    requires accepted <= s.specs.Keys && WithinLimits(s, accepted) && id in accepted && ahead <= accepted - {id}
    ensures Draw(s.specs[id], pool) > 0 ==> Demand(s.specs, ahead, pool) + Draw(s.specs[id], pool) <= Limit(s.env, pool)
  {
    DemandRemove(s.specs, ahead + {id}, id, pool);
    assert ahead + {id} - {id} == ahead;
    DemandMonotone(s.specs, ahead + {id}, s.specs, accepted, pool);
    assert Demand(s.specs, accepted, pool) <= Max(0, Limit(s.env, pool));
  }

  lemma AcceptedAgain(s: State, priorities: Priorities, jobs: seq<Job>, accepted: set<JobId>,
                      t: State, priorities': Priorities, jobs': seq<Job>, k: nat, g': seq<bool>)
    requires TwoRounds(s, priorities, jobs, accepted, t, priorities', jobs') && k < |jobs'| && |g'| == k
    requires AcceptedIds(jobs'[..k], g') == Ahead(jobs', k, accepted)
    requires jobs'[k].id in accepted && jobs'[k].spec.vc in s.env.vcs
    ensures Admit(s.env, jobs'[..k], g', jobs'[k].spec)
  {
    AcceptedWithin(s, jobs, Greedy(s.env, jobs), accepted);
    forall pool ensures HasRoom(s.env, jobs'[..k], g', jobs'[k].spec, pool) {
      TotalIsDemand(s.specs, jobs'[..k], g', pool);
      AcceptedFits(s, jobs, accepted, Ahead(jobs', k, accepted), jobs'[k].id, pool);
    }
  }

  lemma RejectedAgain(s: State, priorities: Priorities, jobs: seq<Job>, accepted: set<JobId>,
                      t: State, priorities': Priorities, jobs': seq<Job>, i: nat, k: nat, g': seq<bool>)
    requires TwoRounds(s, priorities, jobs, accepted, t, priorities', jobs') && k < |jobs'| && |g'| == k
    requires AcceptedIds(jobs'[..k], g') == Ahead(jobs', k, accepted)
    requires i < |jobs| && jobs[i].id == jobs'[k].id && jobs'[k].id !in accepted && jobs'[k].spec.vc in s.env.vcs
    ensures !Admit(s.env, jobs'[..k], g', jobs'[k].spec)
  {
    var g := Greedy(s.env, jobs);
    AcceptedAt(jobs, g, i);
    GreedyAt(s.env, jobs, i);
    AllStayAhead(s, priorities, jobs, accepted, t, priorities', jobs', i, k, g);
    forall pool ensures HasRoom(s.env, jobs'[..k], g', jobs'[k].spec, pool) ==> HasRoom(s.env, jobs[..i], g[..i], jobs[i].spec, pool) {
      TotalIsDemand(s.specs, jobs'[..k], g', pool);
      TotalIsDemand(s.specs, jobs[..i], g[..i], pool);
      DemandMonotone(s.specs, AcceptedIds(jobs[..i], g[..i]), s.specs, Ahead(jobs', k, accepted), pool);
    }
  }

  lemma DecidedAgain(s: State, priorities: Priorities, jobs: seq<Job>, accepted: set<JobId>,
                     t: State, priorities': Priorities, jobs': seq<Job>, k: nat, g': seq<bool>)
    requires TwoRounds(s, priorities, jobs, accepted, t, priorities', jobs') && k < |jobs'| && |g'| == k
    requires AcceptedIds(jobs'[..k], g') == Ahead(jobs', k, accepted)
    ensures Admit(s.env, jobs'[..k], g', jobs'[k].spec) <==> jobs'[k].id in accepted
  {
    assert IsConsidered(t.status[jobs'[k].id]);
    var i :| 0 <= i < |jobs| && jobs[i].id == jobs'[k].id && jobs[i].spec.vc in t.env.vcs;
    if jobs'[k].id in accepted {
      AcceptedAgain(s, priorities, jobs, accepted, t, priorities', jobs', k, g');
    } else {
      RejectedAgain(s, priorities, jobs, accepted, t, priorities', jobs', i, k, g');
    }
  }

  lemma {:induction false} GreedyMore(env: Env, jobs: seq<Job>, n: nat)
    requires n < |jobs|
    ensures Greedy(env, jobs[..n + 1]) ==
            Greedy(env, jobs[..n]) + [Admit(env, jobs[..n], Greedy(env, jobs[..n]), jobs[n].spec)]
  {
    assert jobs[..n + 1][..n] == jobs[..n];
  }

  lemma AheadMore(jobs: seq<Job>, n: nat, accepted: set<JobId>, g: seq<bool>, now: bool)
    requires n < |jobs| && |g| == n && AcceptedIds(jobs[..n], g) == Ahead(jobs, n, accepted)
    requires now <==> jobs[n].id in accepted
    ensures AcceptedIds(jobs[..n + 1], g + [now]) == Ahead(jobs, n + 1, accepted)
  {
    var upTo, all := jobs[..n + 1], g + [now];
    forall id ensures id in AcceptedIds(upTo, all) <==> id in AcceptedIds(jobs[..n], g) || (now && id == jobs[n].id) {
      if id in AcceptedIds(jobs[..n], g) {
        var m :| 0 <= m < n && g[m] && jobs[..n][m].id == id;
        assert all[m] && upTo[m].id == id;
      }
      if now && id == jobs[n].id { assert all[n] && upTo[n].id == id; }
      if id in AcceptedIds(upTo, all) {
        var m :| 0 <= m < n + 1 && all[m] && upTo[m].id == id;
        if m < n { assert g[m] && jobs[..n][m].id == id; }
      }
    }
  }

  ghost predicate DecidesAs(jobs: seq<Job>, k: nat, g: seq<bool>, accepted: set<JobId>)
    requires k <= |jobs|
  {
    && |g| == k && (forall m | 0 <= m < k :: g[m] <==> jobs[m].id in accepted)
    && AcceptedIds(jobs[..k], g) == Ahead(jobs, k, accepted)
  }

  lemma DecidesMore(jobs: seq<Job>, k: nat, g: seq<bool>, accepted: set<JobId>)
    requires k < |jobs| && DecidesAs(jobs, k, g, accepted)
    ensures DecidesAs(jobs, k + 1, g + [jobs[k].id in accepted], accepted)
  {
    AheadMore(jobs, k, accepted, g, jobs[k].id in accepted);
  }

  /** The next round accepts exactly the jobs the first one accepted. */
  lemma {:induction false} SameAccepted(s: State, priorities: Priorities, jobs: seq<Job>, accepted: set<JobId>,
                                        t: State, priorities': Priorities, jobs': seq<Job>, k: nat)
    requires TwoRounds(s, priorities, jobs, accepted, t, priorities', jobs') && k <= |jobs'|
    ensures DecidesAs(jobs', k, Greedy(s.env, jobs'[..k]), accepted)
  {
    if k == 0 {
      assert jobs'[..0] == [];
    } else {
      var n := k - 1;
      var g' := Greedy(s.env, jobs'[..n]);
      SameAccepted(s, priorities, jobs, accepted, t, priorities', jobs', n);
      DecidedAgain(s, priorities, jobs, accepted, t, priorities', jobs', n, g');
      GreedyMore(s.env, jobs', n);
      DecidesMore(jobs', n, g', accepted);
    }
  }

  // ---- Nothing to do ---------------------------------------------------------------------------------

  lemma {:induction false} CarriedOutBy(s: State, jobs: seq<Job>, states: seq<State>, events: seq<Event>)
    requires Drains(states, events) && AllSucceed(events) && WellFormed(states[0])
    requires states[|events|].submits == {} && states[|events|].kills == {} && s.status.Keys == states[0].status.Keys
    requires states[0] == AfterRound(s, Orphans(s.env, jobs), Actions(s.env, jobs, Greedy(s.env, jobs), |jobs|))
    ensures CarriedOut(s, jobs, states[|events|])
  {
    var t := states[|events|];
    DrainFollows(states, events, |events|);
    forall id | id in t.status ensures t.status[id] == Carried(states[0], t, id) {
      StatusSoFar(states, events, |events|, id);
    }
  }

  lemma NothingToDo(s: State, priorities: Priorities, jobs: seq<Job>, accepted: set<JobId>,
                    t: State, priorities': Priorities, jobs': seq<Job>)
    requires TwoRounds(s, priorities, jobs, accepted, t, priorities', jobs')
    ensures Orphans(t.env, jobs') == []
    ensures forall id :: Submit(id) !in Actions(t.env, jobs', Greedy(t.env, jobs'), |jobs'|) &&
                         Preempt(id) !in Actions(t.env, jobs', Greedy(t.env, jobs'), |jobs'|)
  {
    SameAccepted(s, priorities, jobs, accepted, t, priorities', jobs', |jobs'|);
    assert jobs'[..|jobs'|] == jobs';
    forall k | 0 <= k < |jobs'|
      ensures jobs'[k].spec.vc in t.env.vcs && (Greedy(t.env, jobs')[k] <==> IsActive(jobs'[k].status))
    {
      SettledAt(s, priorities, jobs, accepted, t, priorities', jobs', k);
    }
    NoOrphans(t.env, jobs');
    NoTasks(t.env, jobs', Greedy(t.env, jobs'));
  }

  lemma NoTasks(env: Env, jobs: seq<Job>, accept: seq<bool>)
    requires |accept| == |jobs| && forall k | 0 <= k < |jobs| :: accept[k] <==> IsActive(jobs[k].status)
    ensures forall id :: Submit(id) !in Actions(env, jobs, accept, |jobs|) && Preempt(id) !in Actions(env, jobs, accept, |jobs|)
  {
    ActionsSay(env, jobs, accept, |jobs|);
  }

  lemma SettledAt(s: State, priorities: Priorities, jobs: seq<Job>, accepted: set<JobId>,
                  t: State, priorities': Priorities, jobs': seq<Job>, k: nat)
    requires TwoRounds(s, priorities, jobs, accepted, t, priorities', jobs') && k < |jobs'|
    ensures jobs'[k].spec.vc in t.env.vcs && (jobs'[k].id in accepted <==> IsActive(jobs'[k].status))
  {
    assert IsConsidered(t.status[jobs'[k].id]);
    var i :| 0 <= i < |jobs| && jobs[i].id == jobs'[k].id && jobs[i].spec.vc in t.env.vcs;
  }

  lemma {:induction false} NoOrphans(env: Env, jobs: seq<Job>)
    requires forall k | 0 <= k < |jobs| :: jobs[k].spec.vc in env.vcs
    ensures Orphans(env, jobs) == []
  {
    if jobs == [] {
    } else {
      NoOrphans(env, jobs[..|jobs| - 1]);
    }
  }

  /** No lookup fails the next round if none failed the first. */
  lemma NothingFails(s: State, priorities: Priorities, jobs: seq<Job>, accepted: set<JobId>,
                     t: State, priorities': Priorities, jobs': seq<Job>)
    requires TwoRounds(s, priorities, jobs, accepted, t, priorities', jobs') && !FirstPassFails(s.env, jobs)
    requires TwoPass(s.env, jobs) == Greedy(s.env, jobs) && TwoPass(t.env, jobs') == Greedy(t.env, jobs')
    ensures !FirstPassFails(t.env, jobs') && !SecondPassFails(t.env, jobs')
  {
    SameAccepted(s, priorities, jobs, accepted, t, priorities', jobs', |jobs'|);
    assert jobs'[..|jobs'|] == jobs';
    forall k | 0 <= k < |jobs'| ensures jobs'[k].spec.vc in t.env.vcs && !MissingDevice(t.env, jobs', k) {
      assert IsConsidered(t.status[jobs'[k].id]);
      var i :| 0 <= i < |jobs| && jobs[i].id == jobs'[k].id && jobs[i].spec.vc in t.env.vcs;
      AcceptedAt(jobs, Greedy(s.env, jobs), i);
      FirstPassIsPart(s.env, jobs, i);
      FirstPassIsPart(t.env, jobs', k);
      assert !MissingDevice(s.env, jobs, i);
    }
  }

  /** After a decided round whose tasks all succeed, and with nothing else happening, the next round decides without
      failing, changes nothing and gives the launcher nothing to do, whatever the priorities have become. */
  lemma NextRoundIdle(s: State, e: Event, states: seq<State>, events: seq<Event>, e': Event)
    requires Inv(s) && Enabled(s, e) && e.Round? && e.outcome.Decided?
    requires Drains(states, events) && AllSucceed(events) && states[0] == Apply(s, e)
    requires states[|events|].submits == {} && states[|events|].kills == {}
    requires e'.Round? && Enabled(states[|events|], e')
    requires IsOutcome(states[|events|].env, RoundOrder(e'.priorities, e'.rows), e'.outcome)
    ensures e'.outcome.Decided? && e'.outcome.marked == []
    ensures forall id :: Submit(id) !in e'.outcome.actions && Preempt(id) !in e'.outcome.actions
    ensures Apply(states[|events|], e') == states[|events|]
  {
    var t, jobs, jobs' := states[|events|], RoundOrder(e.priorities, e.rows), RoundOrder(e'.priorities, e'.rows);
    var accepted := AcceptedIds(jobs, Greedy(s.env, jobs));
    FirstRound(s, e, states, events);
    OrderLists(t, e'.priorities, e'.rows);
    RoundIsGreedy(s.env, e.priorities, e.rows);
    RoundIsGreedy(t.env, e'.priorities, e'.rows);
    assert TwoRounds(s, e.priorities, jobs, accepted, t, e'.priorities, jobs');
    NothingFails(s, e.priorities, jobs, accepted, t, e'.priorities, jobs');
    NothingToDo(s, e.priorities, jobs, accepted, t, e'.priorities, jobs');
  }

  lemma {:induction false} FirstRound(s: State, e: Event, states: seq<State>, events: seq<Event>)
    requires Inv(s) && Enabled(s, e) && e.Round? && e.outcome.Decided?
    requires Drains(states, events) && AllSucceed(events) && states[0] == Apply(s, e)
    requires states[|events|].submits == {} && states[|events|].kills == {}
    ensures var jobs, t := RoundOrder(e.priorities, e.rows), states[|events|];
            && InOrder(s, e.priorities, jobs) && t.specs == s.specs && t.env == s.env
            && Settled(t, jobs, AcceptedIds(jobs, Greedy(s.env, jobs)))
  {
    var jobs := RoundOrder(e.priorities, e.rows);
    OrderLists(s, e.priorities, e.rows);
    RoundIsGreedy(s.env, e.priorities, e.rows);
    RoundKeepsInv(s, e);
    RoundMarks(s, e.priorities, jobs, Orphans(s.env, jobs));
    RoundApplied(s, e, AfterRound(s, Orphans(s.env, jobs), Actions(s.env, jobs, Greedy(s.env, jobs), |jobs|)));
    CarriedOutBy(s, jobs, states, events);
    RoundSettles(s, e.priorities, jobs, states[|events|], AcceptedIds(jobs, Greedy(s.env, jobs)));
  }
}

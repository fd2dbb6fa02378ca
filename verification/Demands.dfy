/** What the decisions of a round mean in devices: demands and limits written out from the job and cluster rows
    (src/ClusterManager/job_manager.py, GetJobTotalGpu and TakeJobActions). */
module Demands {
  import opened Jobs
  import opened Admission

  /** Devices per worker times the number of workers, one when the number is absent or zero. */
  function Devices(spec: Spec): int {
    match spec.workers
    case None => spec.resourceGpu
    case Some(workers) => if workers == 0 then spec.resourceGpu else spec.resourceGpu * workers
  }

  /** What a job takes of one device type in a virtual cluster; requests that are not positive take nothing. */
  function VcAsks(spec: Spec, vc: string, device: string): nat {
    if spec.vc == vc && spec.device == device && Devices(spec) > 0 then Devices(spec) else 0
  }

  /** What it takes of a user's quota there: preemptible jobs take nothing. */
  function UserAsks(spec: Spec, user: string, vc: string, device: string): nat {
    if spec.preemptible || spec.user != user then 0 else VcAsks(spec, vc, device)
  }

  /** The devices of one type that a virtual cluster can schedule: its total without the unschedulable ones. */
  function VcHolds(env: Env, vc: string, device: string): int {
    if vc !in env.vcs || device !in env.vcs[vc].total then 0
    else if device in env.vcs[vc].unschedulable then env.vcs[vc].total[device] - env.vcs[vc].unschedulable[device]
    else env.vcs[vc].total[device]
  }

  /** The quota of every user there, 9999 where none is set. */
  function UserHolds(env: Env, vc: string, device: string): int {
    if vc !in env.vcs || device !in env.vcs[vc].total then 0
    else if device in env.vcs[vc].userQuota then env.vcs[vc].userQuota[device]
    else 9999
  }

  function AtLeastZero(x: int): nat {
    if x < 0 then 0 else x
  }

  function VcAccepted(jobs: seq<Job>, accept: seq<bool>, vc: string, device: string): nat
    requires |accept| == |jobs|
  {
    if jobs == [] then 0
    else (if accept[0] then VcAsks(jobs[0].spec, vc, device) else 0) + VcAccepted(jobs[1..], accept[1..], vc, device)
  }

  function UserAccepted(jobs: seq<Job>, accept: seq<bool>, user: string, vc: string, device: string): nat
    requires |accept| == |jobs|
  {
    if jobs == [] then 0
    else (if accept[0] then UserAsks(jobs[0].spec, user, vc, device) else 0) + UserAccepted(jobs[1..], accept[1..], user, vc, device)
  }

  lemma DrawIsAsked(spec: Spec, user: string, vc: string, device: string)
    ensures Draw(spec, VcPool(vc, device)) == VcAsks(spec, vc, device)
    ensures Draw(spec, UserPool(user, vc, device)) == UserAsks(spec, user, vc, device)
  {
    assert TotalGpu(spec) == Devices(spec);
  }

  lemma LimitIsHeld(env: Env, user: string, vc: string, device: string)
    ensures Limit(env, VcPool(vc, device)) == VcHolds(env, vc, device)
    ensures Limit(env, UserPool(user, vc, device)) == UserHolds(env, vc, device)
  {
  }

  lemma {:induction false} TotalFront(jobs: seq<Job>, accept: seq<bool>, pool: Pool)
    requires |accept| == |jobs| > 0
    ensures Total(jobs, accept, pool) == (if accept[0] then Draw(jobs[0].spec, pool) else 0) + Total(jobs[1..], accept[1..], pool)
  {
    var n := |jobs| - 1;
    if n == 0 {
      assert Total(jobs[..0], accept[..0], pool) == 0;
    } else {
      TotalFront(jobs[..n], accept[..n], pool);
      assert jobs[..n][1..] == jobs[1..][..n - 1] && accept[..n][1..] == accept[1..][..n - 1];
    }
  }

  lemma {:induction false} TotalIsAccepted(jobs: seq<Job>, accept: seq<bool>, user: string, vc: string, device: string)
    requires |accept| == |jobs|
    ensures Total(jobs, accept, VcPool(vc, device)) == VcAccepted(jobs, accept, vc, device)
    ensures Total(jobs, accept, UserPool(user, vc, device)) == UserAccepted(jobs, accept, user, vc, device)
  {
    if jobs == [] {
    } else {
      TotalIsAccepted(jobs[1..], accept[1..], user, vc, device);
      TotalFront(jobs, accept, VcPool(vc, device));
      TotalFront(jobs, accept, UserPool(user, vc, device));
      DrawIsAsked(jobs[0].spec, user, vc, device);
    }
  }

  /** The accepted jobs of a round ask for no more than every virtual cluster can schedule and every user may use. */
  lemma AcceptedWithinHeld(env: Env, jobs: seq<Job>, user: string, vc: string, device: string)
    ensures VcAccepted(jobs, Greedy(env, jobs), vc, device) <= AtLeastZero(VcHolds(env, vc, device))
    ensures UserAccepted(jobs, Greedy(env, jobs), user, vc, device) <= AtLeastZero(UserHolds(env, vc, device))
  {
    var g := Greedy(env, jobs);
    GreedyFits(env, jobs);
    TotalIsAccepted(jobs, g, user, vc, device);
    LimitIsHeld(env, user, vc, device);
    assert Total(jobs, g, VcPool(vc, device)) <= AtLeastZero(Limit(env, VcPool(vc, device)));
    assert Total(jobs, g, UserPool(user, vc, device)) <= AtLeastZero(Limit(env, UserPool(user, vc, device)));
  }

  /** The devices the job asks for are left beside what others take. */
  predicate LeavesRoom(env: Env, spec: Spec, vcTaken: nat, userTaken: nat) {
    Devices(spec) > 0 ==>
      && vcTaken + Devices(spec) <= VcHolds(env, spec.vc, spec.device)
      && (spec.preemptible || userTaken + Devices(spec) <= UserHolds(env, spec.vc, spec.device))
  }

  /** A job is accepted exactly if its virtual cluster exists and the jobs accepted before it leave room for it. */
  lemma DecidedExactly(env: Env, jobs: seq<Job>, k: nat)
    requires k < |jobs|
    ensures var (spec, g) := (jobs[k].spec, Greedy(env, jobs));
            g[k] <==> spec.vc in env.vcs &&
                      LeavesRoom(env, spec, VcAccepted(jobs[..k], g[..k], spec.vc, spec.device),
                                 UserAccepted(jobs[..k], g[..k], spec.user, spec.vc, spec.device))
  {
    var spec, g := jobs[k].spec, Greedy(env, jobs);
    GreedyAt(env, jobs, k);
    TotalIsAccepted(jobs[..k], g[..k], spec.user, spec.vc, spec.device);
    DrawIsAsked(spec, spec.user, spec.vc, spec.device);
    LimitIsHeld(env, spec.user, spec.vc, spec.device);
  }

  /** A rejected job whose virtual cluster exists has no room beside all accepted jobs either. */
  lemma RejectedHasNoRoom(env: Env, jobs: seq<Job>, k: nat)
    requires k < |jobs| && !Greedy(env, jobs)[k] && jobs[k].spec.vc in env.vcs
    ensures var (spec, g) := (jobs[k].spec, Greedy(env, jobs));
            !LeavesRoom(env, spec, VcAccepted(jobs, g, spec.vc, spec.device), UserAccepted(jobs, g, spec.user, spec.vc, spec.device))
  {
    var spec, g := jobs[k].spec, Greedy(env, jobs);
    NoRejectedJobFits(env, jobs, k);
    TotalIsAccepted(jobs, g, spec.user, spec.vc, spec.device);
    DrawIsAsked(spec, spec.user, spec.vc, spec.device);
    LimitIsHeld(env, spec.user, spec.vc, spec.device);
  }

  // ---- Jobs of the table -----------------------------------------------------------------------------

  function VcAsked(specs: map<JobId, Spec>, ids: seq<JobId>, vc: string, device: string): nat
    requires forall id | id in ids :: id in specs
  {
    if ids == [] then 0 else VcAsks(specs[ids[0]], vc, device) + VcAsked(specs, ids[1..], vc, device)
  }

  function UserAsked(specs: map<JobId, Spec>, ids: seq<JobId>, user: string, vc: string, device: string): nat
    requires forall id | id in ids :: id in specs
  {
    if ids == [] then 0 else UserAsks(specs[ids[0]], user, vc, device) + UserAsked(specs, ids[1..], user, vc, device)
  }
}

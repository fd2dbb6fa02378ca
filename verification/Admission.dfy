/** Which jobs a scheduling round lets run: the greedy decision, its optimality, and the equivalence of the
    two passes of the original with one pass (src/ClusterManager/job_manager.py, TakeJobActions). */
module Admission {
  import opened Jobs
  import opened Resources

  /** One virtual cluster as a round sees it: its quota per device, the part of it that is unschedulable,
      and the per-user limits its metadata sets. */
  datatype Vc = Vc(total: Counts, unschedulable: Counts, userQuota: Counts)

  /** The inputs of a round apart from the jobs: its virtual clusters, and the devices of the whole cluster. */
  datatype Env = Env(vcs: map<string, Vc>, capacity: Counts, unschedulable: Counts)

  /** The cluster-wide ledger at the start of a round. */
  function GlobalCounts(env: Env): Counts {
    Minus(env.capacity, env.unschedulable)
  }

  function Schedulable(vc: Vc): Counts {
    map d | d in vc.total :: vc.total[d] - Count(vc.unschedulable, d)
  }

  /** Devices without a user quota get 9999. */
  function UserAllocable(vc: Vc): Counts {
    map d | d in vc.total :: if d in vc.userQuota then vc.userQuota[d] else 9999
  }

  /** What demand is charged against: a virtual cluster's devices, or one user's share of them. */
  datatype Pool = VcPool(vc: string, device: string) | UserPool(user: string, vc: string, device: string)

  /** What a job takes from a pool. Preemptible jobs are not charged to the user. */
  function Draw(spec: Spec, pool: Pool): nat {
    match pool
    case VcPool(vc, device) => if spec.vc == vc && spec.device == device then Need(spec) else 0
    case UserPool(user, vc, device) =>
      if !spec.preemptible && spec.user == user && spec.vc == vc && spec.device == device then Need(spec) else 0
  }

  function Limit(env: Env, pool: Pool): int {
    if pool.vc !in env.vcs then 0
    else Count(if pool.VcPool? then Schedulable(env.vcs[pool.vc]) else UserAllocable(env.vcs[pool.vc]), pool.device)
  }

  /** What the accepted jobs take from a pool together. */
  function Total(jobs: seq<Job>, accept: seq<bool>, pool: Pool): nat
    requires |accept| == |jobs|
  {
    if jobs == [] then 0
    else
      var n := |jobs| - 1;
      Total(jobs[..n], accept[..n], pool) + if accept[n] then Draw(jobs[n].spec, pool) else 0
  }

  /** A selection that respects every limit. A pool nobody draws from never objects. */
  ghost predicate Fits(env: Env, jobs: seq<Job>, accept: seq<bool>)
    requires |accept| == |jobs|
  {
    && (forall i | 0 <= i < |jobs| && accept[i] :: jobs[i].spec.vc in env.vcs)
    && (forall pool :: Total(jobs, accept, pool) <= Max(0, Limit(env, pool)))
  }

  /** After the accepted jobs, the pool still holds what `spec` would take from it. */
  predicate HasRoom(env: Env, jobs: seq<Job>, accept: seq<bool>, spec: Spec, pool: Pool)
    requires |accept| == |jobs|
  {
    Draw(spec, pool) > 0 ==> Total(jobs, accept, pool) + Draw(spec, pool) <= Limit(env, pool)
  }

  /** The test of one job: its virtual cluster exists and has room, and so has the user unless preemptible. */
  predicate Admit(env: Env, jobs: seq<Job>, accept: seq<bool>, spec: Spec)
    requires |accept| == |jobs|
  {
    && spec.vc in env.vcs
    && HasRoom(env, jobs, accept, spec, VcPool(spec.vc, spec.device))
    && HasRoom(env, jobs, accept, spec, UserPool(spec.user, spec.vc, spec.device))
  }

  /** One pass over the jobs in order, admitting whatever still has room. */
  function Greedy(env: Env, jobs: seq<Job>): (accept: seq<bool>)
    ensures |accept| == |jobs|
  {
    if jobs == [] then []
    else
      var n := |jobs| - 1;
      var accept := Greedy(env, jobs[..n]);
      accept + [Admit(env, jobs[..n], accept, jobs[n].spec)]
  }

  /** The first loop of the original: only non-preemptible jobs. */
  function FirstPass(env: Env, jobs: seq<Job>): (accept: seq<bool>)
    ensures |accept| == |jobs|
    ensures forall i | 0 <= i < |jobs| && accept[i] :: !jobs[i].spec.preemptible
  {
    if jobs == [] then []
    else
      var n := |jobs| - 1;
      var accept := FirstPass(env, jobs[..n]);
      accept + [!jobs[n].spec.preemptible && Admit(env, jobs[..n], accept, jobs[n].spec)]
  }

  /** The second loop after `n` jobs: preemptible jobs take from what the whole first pass has left. */
  function SecondPass(env: Env, jobs: seq<Job>, first: seq<bool>, n: nat): (accept: seq<bool>)
    requires |first| == |jobs| && n <= |jobs|
    ensures |accept| == |jobs| && accept[n..] == first[n..]
  {
    if n == 0 then first
    else
      var accept := SecondPass(env, jobs, first, n - 1);
      if jobs[n - 1].spec.preemptible && !accept[n - 1] && Admit(env, jobs, accept, jobs[n - 1].spec)
      then accept[n - 1 := true] else accept
  }

  function TwoPass(env: Env, jobs: seq<Job>): (accept: seq<bool>)
    ensures |accept| == |jobs|
  {
    SecondPass(env, jobs, FirstPass(env, jobs), |jobs|)
  }

  // ---- Totals --------------------------------------------------------------------------------------

  /** Selecting more never lowers a total. */
  lemma {:induction false} TotalMonotone(jobs: seq<Job>, a: seq<bool>, b: seq<bool>, pool: Pool)
    requires |a| == |b| == |jobs|
    requires forall i | 0 <= i < |jobs| && a[i] :: b[i]
    ensures Total(jobs, a, pool) <= Total(jobs, b, pool)
  {
    if jobs == [] {
    } else {
      var n := |jobs| - 1;
      TotalMonotone(jobs[..n], a[..n], b[..n], pool);
    }
  }

  /** Jobs after position `k` that are not selected do not count. */
  lemma {:induction false} TotalPrefix(jobs: seq<Job>, a: seq<bool>, k: nat, pool: Pool)
    requires |a| == |jobs| && k <= |jobs|
    requires forall i | k <= i < |jobs| :: !a[i]
    ensures Total(jobs, a, pool) == Total(jobs[..k], a[..k], pool)
  {
    if k == |jobs| {
      assert jobs[..k] == jobs && a[..k] == a;
    } else {
      var n := |jobs| - 1;
      TotalPrefix(jobs[..n], a[..n], k, pool);
      assert jobs[..n][..k] == jobs[..k] && a[..n][..k] == a[..k];
    }
  }

  /** Selecting one more job adds exactly its draw. */
  lemma {:induction false} TotalUpdate(jobs: seq<Job>, a: seq<bool>, k: nat, pool: Pool)
    requires |a| == |jobs| && k < |jobs| && !a[k]
    ensures Total(jobs, a[k := true], pool) == Total(jobs, a, pool) + Draw(jobs[k].spec, pool)
  {
    var n := |jobs| - 1;
    if k == n {
      assert a[k := true][..n] == a[..n];
    } else {
      assert a[k := true][..n] == a[..n][k := true];
      TotalUpdate(jobs[..n], a[..n], k, pool);
    }
  }

  /** A selection weighs at least as much as its part before `k`. */
  lemma {:induction false} TotalOfPart(jobs: seq<Job>, a: seq<bool>, k: nat, pool: Pool)
    requires |a| == |jobs| && k <= |jobs|
    ensures Total(jobs[..k], a[..k], pool) <= Total(jobs, a, pool)
    ensures k < |jobs| && a[k] ==> Total(jobs[..k], a[..k], pool) + Draw(jobs[k].spec, pool) <= Total(jobs, a, pool)
  {
    if k == |jobs| {
      assert jobs[..k] == jobs && a[..k] == a;
    } else {
      var n := |jobs| - 1;
      TotalOfPart(jobs[..n], a[..n], k, pool);
      assert jobs[..n][..k] == jobs[..k] && a[..n][..k] == a[..k];
    }
  }

  // ---- One pass: prefix stability, feasibility, optimality -----------------------------------------

  /** Decisions depend only on the jobs before: cutting the list anywhere leaves the earlier ones unchanged. */
  lemma {:induction false} GreedyPrefix(env: Env, jobs: seq<Job>, k: nat)
    requires k <= |jobs|
    ensures Greedy(env, jobs)[..k] == Greedy(env, jobs[..k])
  {
    if k == |jobs| {
      assert jobs[..k] == jobs;
    } else {
      var n := |jobs| - 1;
      GreedyPrefix(env, jobs[..n], k);
      assert jobs[..n][..k] == jobs[..k];
    }
  }

  lemma GreedyAt(env: Env, jobs: seq<Job>, k: nat)
    requires k < |jobs|
    ensures Greedy(env, jobs)[k] == Admit(env, jobs[..k], Greedy(env, jobs)[..k], jobs[k].spec)
  {
    GreedyPrefix(env, jobs, k);
    GreedyPrefix(env, jobs, k + 1);
    assert jobs[..k + 1][..k] == jobs[..k];
    assert Greedy(env, jobs)[k] == Greedy(env, jobs)[..k + 1][k];
  }

  /** Two lists that agree up to `k` get the same first `k` decisions, whatever comes later. */
  lemma LaterJobsDoNotMatter(env: Env, jobs: seq<Job>, others: seq<Job>, k: nat)
    requires k <= |jobs| && k <= |others| && jobs[..k] == others[..k]
    ensures Greedy(env, jobs)[..k] == Greedy(env, others)[..k]
  {
    GreedyPrefix(env, jobs, k);
    GreedyPrefix(env, others, k);
  }

  lemma {:induction false} GreedyFits(env: Env, jobs: seq<Job>)
    ensures Fits(env, jobs, Greedy(env, jobs))
  {
    if jobs == [] {
    } else {
      var n := |jobs| - 1;
      var a := Greedy(env, jobs[..n]);
      GreedyFits(env, jobs[..n]);
      assert Greedy(env, jobs)[..n] == a;
      forall pool ensures Total(jobs, Greedy(env, jobs), pool) <= Max(0, Limit(env, pool)) {
        assert Total(jobs[..n], a, pool) <= Max(0, Limit(env, pool));
      }
      forall i | 0 <= i < |jobs| && Greedy(env, jobs)[i] ensures jobs[i].spec.vc in env.vcs {
        if i < n { assert a[i] && jobs[..n][i] == jobs[i]; }
      }
    }
  }

  /** `b` comes before `a` in the order in which accepting the first job that differs is greater. */
  ghost predicate LexLess(b: seq<bool>, a: seq<bool>)
    requires |a| == |b|
  {
    exists k :: 0 <= k < |a| && b[..k] == a[..k] && a[k] && !b[k]
  }

  /** Every other selection that fits is lexicographically smaller: the greedy pass never gives up an
      earlier job for later ones. */
  lemma GreedyLexGreatest(env: Env, jobs: seq<Job>, b: seq<bool>)
    requires |b| == |jobs| && Fits(env, jobs, b) && b != Greedy(env, jobs)
    ensures LexLess(b, Greedy(env, jobs))
  {
    var g := Greedy(env, jobs);
    var k := FirstDifference(b, g);
    if b[k] {
      GreedyAt(env, jobs, k);
      forall pool ensures Total(jobs[..k], g[..k], pool) + Draw(jobs[k].spec, pool) <= Max(0, Limit(env, pool)) {
        TotalOfPart(jobs, b, k, pool);
      }
      assert false;
    }
  }

  lemma {:induction false} FirstDifference(b: seq<bool>, a: seq<bool>) returns (k: nat)
    requires |a| == |b| && a != b
    ensures k < |a| && b[..k] == a[..k] && a[k] != b[k]
  {
    var n := |a| - 1;
    if a[..n] == b[..n] {
      k := n;
      assert a == a[..n] + [a[n]] && b == b[..n] + [b[n]];
    } else {
      k := FirstDifference(b[..n], a[..n]);
      assert b[..n][..k] == b[..k] && a[..n][..k] == a[..k];
    }
  }

  /** At the end no rejected job would fit into what is left. */
  lemma {:induction false} NoRejectedJobFits(env: Env, jobs: seq<Job>, k: nat)
    requires k < |jobs| && !Greedy(env, jobs)[k]
    ensures !Admit(env, jobs, Greedy(env, jobs), jobs[k].spec)
    ensures !Fits(env, jobs, Greedy(env, jobs)[k := true])
  {
    var g, spec := Greedy(env, jobs), jobs[k].spec;
    GreedyAt(env, jobs, k);
    var vcPool, userPool := VcPool(spec.vc, spec.device), UserPool(spec.user, spec.vc, spec.device);
    TotalOfPart(jobs, g, k, vcPool);
    TotalOfPart(jobs, g, k, userPool);
    TotalUpdate(jobs, g, k, vcPool);
    TotalUpdate(jobs, g, k, userPool);
    assert g[k := true][k];
  }

  // ---- Two passes are one --------------------------------------------------------------------------

  /** The order the leading character of the sort key establishes. */
  predicate PreemptibleLast(jobs: seq<Job>) {
    forall i, j | 0 <= i < j < |jobs| :: jobs[i].spec.preemptible ==> jobs[j].spec.preemptible
  }

  lemma {:induction false} FirstPassAt(env: Env, jobs: seq<Job>, k: nat)
    requires k < |jobs|
    ensures FirstPass(env, jobs)[..k] == FirstPass(env, jobs[..k])
    ensures FirstPass(env, jobs)[k] == (!jobs[k].spec.preemptible && Admit(env, jobs[..k], FirstPass(env, jobs)[..k], jobs[k].spec))
  {
    var n := |jobs| - 1;
    if k < n {
      FirstPassAt(env, jobs[..n], k);
      assert jobs[..n][..k] == jobs[..k];
      assert FirstPass(env, jobs)[..k] == FirstPass(env, jobs[..n])[..k];
    }
  }

  /** Among non-preemptible jobs the first pass decides as one pass does. */
  lemma {:induction false} FirstPassIsGreedy(env: Env, jobs: seq<Job>)
    requires forall i | 0 <= i < |jobs| :: !jobs[i].spec.preemptible
    ensures FirstPass(env, jobs) == Greedy(env, jobs)
  {
    if jobs == [] {
    } else {
      FirstPassIsGreedy(env, jobs[..|jobs| - 1]);
    }
  }

  lemma {:induction false} SecondPassIsGreedy(env: Env, jobs: seq<Job>, n: nat)
    requires PreemptibleLast(jobs) && n <= |jobs|
    ensures SecondPass(env, jobs, FirstPass(env, jobs), n)[..n] == Greedy(env, jobs[..n])
  {
    if n == 0 {
    } else {
      var k := n - 1;
      var before, after := SecondPass(env, jobs, FirstPass(env, jobs), k), SecondPass(env, jobs, FirstPass(env, jobs), n);
      SecondPassIsGreedy(env, jobs, k);
      SecondPassDecides(env, jobs, k, before);
      assert after[..n] == before[..k] + [after[k]];
      assert jobs[..n][..k] == jobs[..k];
    }
  }

  /** In the second loop job `k` is decided by what the jobs before it take, as in a single pass. */
  lemma SecondPassDecides(env: Env, jobs: seq<Job>, k: nat, before: seq<bool>)
    requires PreemptibleLast(jobs) && k < |jobs| && before == SecondPass(env, jobs, FirstPass(env, jobs), k)
    requires before[..k] == Greedy(env, jobs[..k])
    ensures SecondPass(env, jobs, FirstPass(env, jobs), k + 1)[k] == Admit(env, jobs[..k], before[..k], jobs[k].spec)
  {
    var first := FirstPass(env, jobs);
    FirstPassAt(env, jobs, k);
    SameTail(before, first, k, k);
    if jobs[k].spec.preemptible {
      forall i | k <= i < |jobs| ensures !before[i] { SameTail(before, first, k, i); }
      AdmitPrefix(env, jobs, before, k, jobs[k].spec);
    } else {
      FirstPassIsGreedy(env, jobs[..k]);
    }
  }

  lemma SameTail(a: seq<bool>, b: seq<bool>, k: nat, i: nat)
    requires |a| == |b| && k <= i < |a| && a[k..] == b[k..]
    ensures a[i] == b[i]
  {
    assert a[i] == a[k..][i - k] && b[i] == b[k..][i - k];
  }

  /** Unaccepted jobs further on do not influence the test. */
  lemma AdmitPrefix(env: Env, jobs: seq<Job>, accept: seq<bool>, k: nat, spec: Spec)
    requires |accept| == |jobs| && k <= |jobs| && forall i | k <= i < |jobs| :: !accept[i]
    ensures Admit(env, jobs, accept, spec) == Admit(env, jobs[..k], accept[..k], spec)
  {
    TotalPrefix(jobs, accept, k, VcPool(spec.vc, spec.device));
    TotalPrefix(jobs, accept, k, UserPool(spec.user, spec.vc, spec.device));
  }

  /** The second loop changes no decision of the first. */
  lemma {:induction false} SecondPassKeepsFirst(env: Env, jobs: seq<Job>, first: seq<bool>, n: nat)
    requires |first| == |jobs| && n <= |jobs|
    ensures forall i | 0 <= i < |jobs| && !jobs[i].spec.preemptible :: SecondPass(env, jobs, first, n)[i] == first[i]
  {
    if n == 0 {
    } else {
      SecondPassKeepsFirst(env, jobs, first, n - 1);
    }
  }

  /** What the first loop admits is what both loops accept of the non-preemptible jobs. */
  lemma FirstPassIsPart(env: Env, jobs: seq<Job>, i: nat)
    requires i < |jobs|
    ensures FirstPass(env, jobs)[i] <==> !jobs[i].spec.preemptible && TwoPass(env, jobs)[i]
  {
    SecondPassKeepsFirst(env, jobs, FirstPass(env, jobs), |jobs|);
  }

  /** With preemptible jobs last, the two loops compute exactly the single greedy pass. */
  lemma TwoPassIsGreedy(env: Env, jobs: seq<Job>)
    requires PreemptibleLast(jobs)
    ensures TwoPass(env, jobs) == Greedy(env, jobs)
  {
    SecondPassIsGreedy(env, jobs, |jobs|);
    assert jobs[..|jobs|] == jobs;
  }
}

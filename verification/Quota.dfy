/** How the devices of one type are divided among the virtual clusters before a round
    (src/utils/quota.py, calculate_vc_gpu_counts), and why a recount never undercuts running jobs. */
module Quota {
  import opened Arithmetic
  import opened Resources

  /** One virtual cluster and device type: the configured quota, the devices its active jobs use, and its weight in
      the division of free devices, max(quota - its part of the unschedulable devices - used, 0). */
  datatype Share = Share(quota: int, used: int, weight: nat)

  function Weights(shares: seq<Share>): nat {
    if shares == [] then 0 else Weights(shares[..|shares| - 1]) + shares[|shares| - 1].weight
  }

  /** The free devices a share gets: its proportion, rounded down, of the cluster's free devices or of all weights,
      whichever is less. */
  function Available(free: nat, weights: nat, s: Share): nat {
    if weights == 0 then 0 else (Min(free, weights) * s.weight) / weights
  }

  function Unschedulable(free: nat, weights: nat, s: Share): nat {
    Max(0, s.quota - s.used - Available(free, weights, s))
  }

  /** What a round may hand out in total from this virtual cluster (total - unschedulable). */
  function Schedulable(free: nat, weights: nat, s: Share): int {
    s.quota - Unschedulable(free, weights, s)
  }

  function NewGrants(free: nat, weights: nat, shares: seq<Share>): nat {
    if shares == [] then 0
    else
      var s := shares[|shares| - 1];
      NewGrants(free, weights, shares[..|shares| - 1]) + Max(0, Schedulable(free, weights, s) - s.used)
  }

  /** A recount leaves every virtual cluster its quota or what it uses plus its free share, whichever is less: while
      the jobs stay within the quota, no loss of hardware takes away devices in use. */
  lemma RecountCoversUse(free: nat, weights: nat, s: Share)
    ensures Schedulable(free, weights, s) == Min(s.quota, s.used + Available(free, weights, s))
    ensures s.used <= s.quota <==> s.used <= Schedulable(free, weights, s)
  {
  }

  lemma FloorBelow(x: nat, d: nat)
    requires d > 0
    ensures (x / d) * d <= x
  {
  }

  lemma GrantBelowShare(free: nat, weights: nat, s: Share)
    requires weights > 0
    ensures Max(0, Schedulable(free, weights, s) - s.used) * weights <= Min(free, weights) * s.weight
  {
    RecountCoversUse(free, weights, s);
    MulMonotone(0, Min(free, weights), s.weight);
    FloorBelow(Min(free, weights) * s.weight, weights);
    MulMonotone(Max(0, Schedulable(free, weights, s) - s.used), Available(free, weights, s), weights);
  }

  lemma {:induction false} GrantsBelowShares(free: nat, weights: nat, shares: seq<Share>)
    requires weights > 0
    ensures NewGrants(free, weights, shares) * weights <= Min(free, weights) * Weights(shares)
  {
    if shares == [] {
    } else {
      var init, s := shares[..|shares| - 1], shares[|shares| - 1];
      GrantsBelowShares(free, weights, init);
      GrantBelowShare(free, weights, s);
      var g := Max(0, Schedulable(free, weights, s) - s.used);
      MulAdd(NewGrants(free, weights, init), g, weights);
      MulAdd(Weights(init), s.weight, Min(free, weights));
      MulCommutes(Min(free, weights), Weights(init));
      MulCommutes(Min(free, weights), s.weight);
      MulCommutes(Min(free, weights), Weights(shares));
    }
  }

  lemma GrantsFit(free: nat, shares: seq<Share>)
    ensures NewGrants(free, Weights(shares), shares) <= free
  {
    var w := Weights(shares);
    if w == 0 {
      NoWeights(free, shares);
    } else {
      GrantsBelowShares(free, w, shares);
      Unscale(NewGrants(free, w, shares), Min(free, w), w);
    }
  }

  lemma {:induction false} NoWeights(free: nat, shares: seq<Share>)
    ensures NewGrants(free, 0, shares) == 0
  {
    if shares == [] {
    } else {
      NoWeights(free, shares[..|shares| - 1]);
    }
  }

  // ---- What is handed out, exactly --------------------------------------------------------------------

  /** `n` devices are a share's proportion of the free ones, rounded down. */
  predicate IsProportion(free: nat, weights: nat, s: Share, n: nat) {
    n * weights <= Min(free, weights) * s.weight < (n + 1) * weights
  }

  /** A virtual cluster may hand out its quota, or what it uses and its proportion of the free devices, whichever is
      less; without any weight there is nothing free. */
  lemma SchedulableExactly(free: nat, weights: nat, s: Share, n: nat)
    requires if weights == 0 then n == 0 else IsProportion(free, weights, s, n)
    ensures Schedulable(free, weights, s) == Min(s.quota, s.used + n)
  {
    RecountCoversUse(free, weights, s);
    if weights > 0 {
      var x := Min(free, weights) * s.weight;
      MulMonotone(0, Min(free, weights), s.weight);
      MulAdd(n, 1, weights);
      DivModUnique(x, weights, n, x - n * weights);
    }
  }

  /** With enough free devices for all weights every virtual cluster gets its whole weight. */
  lemma EnoughForAll(free: nat, weights: nat, s: Share)
    requires free >= weights > 0
    ensures Schedulable(free, weights, s) == Min(s.quota, s.used + s.weight)
  {
    MulCommutes(s.weight, weights);
    MulAdd(s.weight, 1, weights);
    SchedulableExactly(free, weights, s, s.weight);
  }

  function Sum(ns: seq<nat>): nat {
    if ns == [] then 0 else Sum(ns[..|ns| - 1]) + ns[|ns| - 1]
  }

  lemma {:induction false} WeightsSum(shares: seq<Share>, weights: seq<nat>)
    requires |weights| == |shares| && forall i | 0 <= i < |shares| :: weights[i] == shares[i].weight
    ensures Weights(shares) == Sum(weights)
  {
    if shares == [] {
    } else {
      WeightsSum(shares[..|shares| - 1], weights[..|shares| - 1]);
    }
  }

  ghost predicate AreProportions(free: nat, weights: nat, shares: seq<Share>, ns: seq<nat>) {
    |ns| == |shares| && forall i | 0 <= i < |ns| :: IsProportion(free, weights, shares[i], ns[i])
  }

  lemma {:induction false} ProportionsSum(free: nat, weights: nat, shares: seq<Share>, ns: seq<nat>)
    requires AreProportions(free, weights, shares, ns)
    ensures Sum(ns) * weights <= Min(free, weights) * Weights(shares)
    ensures shares != [] ==> Min(free, weights) * Weights(shares) < (Sum(ns) + |ns|) * weights
  {
    if shares == [] {
    } else {
      var k := |shares| - 1;
      var m, s := Min(free, weights), shares[k];
      ProportionsSum(free, weights, shares[..k], ns[..k]);
      assert IsProportion(free, weights, s, ns[k]);
      MulAdd(Sum(ns[..k]), ns[k], weights);
      MulAdd(Sum(ns[..k]) + k, ns[k] + 1, weights);
      MulCommutes(m, Weights(shares[..k]));
      MulCommutes(m, s.weight);
      MulCommutes(m, Weights(shares));
      MulAdd(Weights(shares[..k]), s.weight, m);
    }
  }

  /** Rounding down loses less than one device per virtual cluster: the proportions of all of them come to the free
      devices, or the sum of the weights if that is less, up to a shortfall smaller than their number. */
  lemma NearlyAllGiven(free: nat, shares: seq<Share>, weights: seq<nat>, ns: seq<nat>)
    requires |weights| == |shares| && forall i | 0 <= i < |shares| :: weights[i] == shares[i].weight
    requires Sum(weights) > 0 && AreProportions(free, Sum(weights), shares, ns)
    ensures Sum(ns) <= Min(free, Sum(weights)) < Sum(ns) + |shares|
  {
    var w := Sum(weights);
    WeightsSum(shares, weights);
    ProportionsSum(free, w, shares, ns);
    Unscale(Sum(ns), Min(free, w), w);
    Unscale(Min(free, w), Sum(ns) + |ns|, w);
  }

  lemma {:induction false} GrantsSum(free: nat, weights: nat, shares: seq<Share>, grants: seq<nat>)
    requires |grants| == |shares|
    requires forall i | 0 <= i < |shares| :: grants[i] == Max(0, Schedulable(free, weights, shares[i]) - shares[i].used)
    ensures NewGrants(free, weights, shares) == Sum(grants)
  {
    if shares == [] {
    } else {
      GrantsSum(free, weights, shares[..|shares| - 1], grants[..|shares| - 1]);
    }
  }

  /** Over all virtual clusters together, a round never hands out more new devices than the cluster has free. */
  lemma GrantsBelowFree(free: nat, shares: seq<Share>, weights: seq<nat>, grants: seq<nat>)
    requires |weights| == |grants| == |shares| && forall i | 0 <= i < |shares| :: weights[i] == shares[i].weight
    requires forall i | 0 <= i < |shares| :: grants[i] == Max(0, Schedulable(free, Sum(weights), shares[i]) - shares[i].used)
    ensures Sum(grants) <= free
  {
    WeightsSum(shares, weights);
    GrantsFit(free, shares);
    GrantsSum(free, Sum(weights), shares, grants);
  }
}

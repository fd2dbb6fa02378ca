/** Splitting a disk (src/ClusterBootstrap/deploy.py, calculate_partitions and repartition_nodes), over exact reals. */
module Partitions {
  import opened Jobs

  function Min(a: real, b: real): real { if a <= b then a else b }
  function Max(a: real, b: real): real { if a >= b then a else b }

  function Sum(s: seq<real>): real {
    if s == [] then 0.0 else Sum(s[..|s| - 1]) + s[|s| - 1]
  }

  /** The absolute sizes requested by the first `n` entries: the negative ones. */
  function Absolute(config: seq<real>, n: nat): real
    requires n <= |config|
  {
    if n == 0 then 0.0 else Absolute(config, n - 1) + if config[n - 1] < 0.0 then -config[n - 1] else 0.0
  }

  /** The proportions among the first `n` entries. */
  function Proportion(config: seq<real>, n: nat): real
    requires n <= |config|
  {
    if n == 0 then 0.0 else Proportion(config, n - 1) + if config[n - 1] < 0.0 then 0.0 else config[n - 1]
  }

  /** What the absolute requests of the first `n` entries leave of the capacity. */
  function LeftAfter(capacity: real, config: seq<real>, n: nat): real
    requires n <= |config|
  {
    if capacity <= 0.0 then capacity else Max(0.0, capacity - Absolute(config, n))
  }

  /** The size of one entry: an absolute request is served first come, first served; a proportion shares the rest. */
  function SizeAt(capacity: real, config: seq<real>, i: nat): real
    requires i < |config|
  {
    var all := Proportion(config, |config|);
    if config[i] < 0.0 then Max(0.0, Min(LeftAfter(capacity, config, i), -config[i]))
    else Portion(LeftAfter(capacity, config, |config|), config[i], all)
  }

  method CalculatePartitions(capacity: real, config: seq<real>) returns (sizes: seq<real>)
    ensures |sizes| == |config| && forall i | 0 <= i < |config| :: sizes[i] == SizeAt(capacity, config, i)
  {
    var left, proportion;
    sizes, left, proportion := ServeAbsolute(capacity, config);
    for i := 0 to |config|
      invariant |sizes| == |config|
      invariant forall k | 0 <= k < i :: sizes[k] == SizeAt(capacity, config, k)
      invariant forall k | i <= k < |config| && config[k] < 0.0 :: sizes[k] == SizeAt(capacity, config, k)
    {
      if config[i] >= 0.0 {
        var size := Portion(left, config[i], proportion);
        assert size == SizeAt(capacity, config, i);
        sizes := sizes[i := size];
      }
    }
  }

  /** The first loop: absolute requests, and the sum of the proportions. */
  method ServeAbsolute(capacity: real, config: seq<real>) returns (sizes: seq<real>, left: real, proportion: real)
    ensures |sizes| == |config|
    ensures left == LeftAfter(capacity, config, |config|) && proportion == Proportion(config, |config|)
    ensures forall k | 0 <= k < |config| && config[k] < 0.0 :: sizes[k] == SizeAt(capacity, config, k)
  {
    left, proportion := capacity, 0.0;
    sizes := seq(|config|, _ => 0.0);
    for i := 0 to |config|
      invariant |sizes| == |config|
      invariant left == LeftAfter(capacity, config, i) && proportion == Proportion(config, i)
      invariant forall k | 0 <= k < i && config[k] < 0.0 :: sizes[k] == SizeAt(capacity, config, k)
    {
      AbsoluteNonNegative(config, i);
      if config[i] < 0.0 {
        if left > 0.0 {
          sizes := sizes[i := Min(left, -config[i])];
          left := left - sizes[i];
        } else {
          sizes := sizes[i := 0.0];
        }
      } else {
        proportion := proportion + config[i];
      }
    }
  }

  /** A proportional share; nothing when no proportion is positive. */
  function Portion(left: real, part: real, proportion: real): real {
    if proportion == 0.0 then 0.0 else left * part / proportion
  }

  lemma {:induction false} AbsoluteNonNegative(config: seq<real>, n: nat)
    requires n <= |config|
    ensures Absolute(config, n) >= 0.0 && Proportion(config, n) >= 0.0
  {
    if n == 0 {
    } else {
      AbsoluteNonNegative(config, n - 1);
    }
  }

  lemma {:induction false} ProportionMonotone(config: seq<real>, n: nat)
    requires n <= |config|
    ensures Proportion(config, n) <= Proportion(config, |config|)
    decreases |config| - n
  {
    if n < |config| { ProportionMonotone(config, n + 1); }
  }

  ghost predicate AreSizes(capacity: real, config: seq<real>, sizes: seq<real>) {
    |sizes| == |config| && forall i | 0 <= i < |config| :: sizes[i] == SizeAt(capacity, config, i)
  }

  /** What the proportional ones among the first `n` entries get of `left`. */
  function Shared(left: real, all: real, config: seq<real>, n: nat): real
    requires n <= |config|
  {
    if n == 0 then 0.0
    else Shared(left, all, config, n - 1) + if config[n - 1] < 0.0 then 0.0 else Portion(left, config[n - 1], all)
  }

  /** The absolute entries get what they take from the capacity, the others share. */
  lemma {:induction false} SumOfPrefix(capacity: real, config: seq<real>, sizes: seq<real>, n: nat)
    requires AreSizes(capacity, config, sizes) && n <= |config|
    ensures Sum(sizes[..n]) == capacity - LeftAfter(capacity, config, n) +
                               Shared(LeftAfter(capacity, config, |config|), Proportion(config, |config|), config, n)
  {
    if n == 0 {
    } else {
      SumOfPrefix(capacity, config, sizes, n - 1);
      assert sizes[..n][..n - 1] == sizes[..n - 1];
      AbsoluteNonNegative(config, n - 1);
    }
  }

  /** With `rate` the amount per unit of proportion, each share is its proportion times the rate. */
  lemma PortionAtRate(left: real, part: real, all: real, rate: real)
    requires all != 0.0 && rate == left / all
    ensures Portion(left, part, all) == rate * part
  {
  }

  lemma RateAdds(rate: real, a: real, b: real)
    ensures rate * (a + b) == rate * a + rate * b
  {
  }

  lemma {:induction false} SharedAtRate(left: real, all: real, config: seq<real>, n: nat, rate: real)
    requires n <= |config| && all != 0.0 && rate == left / all
    ensures Shared(left, all, config, n) == rate * Proportion(config, n)
  {
    if n == 0 {
    } else {
      SharedAtRate(left, all, config, n - 1, rate);
      if config[n - 1] >= 0.0 {
        PortionAtRate(left, config[n - 1], all, rate);
        RateAdds(rate, Proportion(config, n - 1), config[n - 1]);
      }
    }
  }

  lemma WholeShare(left: real, all: real)
    requires all != 0.0
    ensures (left / all) * all == left
  {
  }

  lemma {:induction false} NothingShared(left: real, config: seq<real>, n: nat)
    requires n <= |config|
    ensures Shared(left, 0.0, config, n) == 0.0
  {
    if n == 0 {
    } else {
      NothingShared(left, config, n - 1);
    }
  }

  /** Together the proportional entries get all that is left, if there is any proportion. */
  lemma AllShared(left: real, config: seq<real>)
    ensures var all := Proportion(config, |config|);
            Shared(left, all, config, |config|) == if all == 0.0 then 0.0 else left
  {
    var all := Proportion(config, |config|);
    if all == 0.0 {
      NothingShared(left, config, |config|);
    } else {
      SharedAtRate(left, all, config, |config|, left / all);
      WholeShare(left, all);
    }
  }

  /** The sizes use the whole capacity if some proportion is positive, otherwise as much of it as is requested. */
  lemma SizesSum(capacity: real, config: seq<real>, sizes: seq<real>)
    requires AreSizes(capacity, config, sizes)
    ensures Sum(sizes) == if Proportion(config, |config|) > 0.0 then capacity
                          else Max(0.0, Min(capacity, Absolute(config, |config|)))
  {
    SumOfPrefix(capacity, config, sizes, |config|);
    AllShared(LeftAfter(capacity, config, |config|), config);
    assert sizes[..|sizes|] == sizes;
    AbsoluteNonNegative(config, |config|);
  }

  lemma {:induction false} PositiveEntry(config: seq<real>, n: nat) returns (i: nat)
    requires n <= |config| && Proportion(config, n) > 0.0
    ensures i < n && config[i] > 0.0
  {
    if config[n - 1] > 0.0 { i := n - 1; } else { i := PositiveEntry(config, n - 1); }
  }

  lemma Quotient(left: real, part: real, all: real)
    requires part >= 0.0 && all > 0.0
    ensures left >= 0.0 ==> left * part / all >= 0.0
    ensures left < 0.0 && part > 0.0 ==> left * part / all < 0.0
  {
    if left < 0.0 && part > 0.0 {
      assert left * part < 0.0;
    } else if left >= 0.0 {
      assert left * part >= 0.0;
    }
  }

  lemma SizeSign(capacity: real, config: seq<real>, i: nat)
    requires i < |config|
    ensures capacity >= 0.0 || Proportion(config, |config|) == 0.0 ==> SizeAt(capacity, config, i) >= 0.0
    ensures capacity < 0.0 && config[i] > 0.0 && Proportion(config, |config|) > 0.0 ==> SizeAt(capacity, config, i) < 0.0
  {
    AbsoluteNonNegative(config, |config|);
    if config[i] >= 0.0 && Proportion(config, |config|) > 0.0 {
      Quotient(LeftAfter(capacity, config, |config|), config[i], Proportion(config, |config|));
    }
  }

  /** No size is negative exactly when the capacity is not, or nothing is shared in proportion. */
  lemma SizesNonNegative(capacity: real, config: seq<real>, sizes: seq<real>)
    requires AreSizes(capacity, config, sizes)
    ensures (forall i | 0 <= i < |sizes| :: sizes[i] >= 0.0) <==> capacity >= 0.0 || Proportion(config, |config|) == 0.0
  {
    AbsoluteNonNegative(config, |config|);
    forall i | 0 <= i < |config| { SizeSign(capacity, config, i); }
    if capacity < 0.0 && Proportion(config, |config|) > 0.0 {
      var i := PositiveEntry(config, |config|);
      SizeSign(capacity, config, i);
      assert sizes[i] < 0.0;
    }
  }

  /** Absolute requests are served in turn: one that gets less than it asks for leaves nothing for any later entry, nor
      for any proportion. */
  lemma FirstServed(capacity: real, config: seq<real>, sizes: seq<real>, i: nat, j: nat)
    requires AreSizes(capacity, config, sizes) && capacity >= 0.0 && i < |config| && j < |config| && config[i] < 0.0
    ensures 0.0 <= sizes[i] <= -config[i]
    ensures sizes[i] < -config[i] && (config[j] >= 0.0 || i < j) ==> sizes[j] == 0.0
  {
    AbsoluteNonNegative(config, i);
    if sizes[i] < -config[i] {
      assert Absolute(config, i + 1) >= capacity;
      if config[j] >= 0.0 {
        AbsoluteMonotone(config, i + 1, |config|);
        NothingLeft(config[j], Proportion(config, |config|));
      } else if i < j {
        AbsoluteMonotone(config, i + 1, j);
      }
    }
  }

  lemma NothingLeft(part: real, all: real)
    ensures Portion(0.0, part, all) == 0.0
  {
  }

  lemma {:induction false} AbsoluteMonotone(config: seq<real>, n: nat, m: nat)
    requires n <= m <= |config|
    ensures Absolute(config, n) <= Absolute(config, m)
    decreases m - n
  {
    if n < m { AbsoluteMonotone(config, n + 1, m); }
  }

  /** What is left is shared in proportion. */
  lemma SharedFairly(capacity: real, config: seq<real>, sizes: seq<real>, i: nat, j: nat)
    requires AreSizes(capacity, config, sizes) && i < |config| && j < |config| && config[i] >= 0.0 && config[j] >= 0.0
    ensures sizes[i] * config[j] == sizes[j] * config[i]
  {
    var left, all := LeftAfter(capacity, config, |config|), Proportion(config, |config|);
    if all != 0.0 {
      PortionAtRate(left, config[i], all, left / all);
      PortionAtRate(left, config[j], all, left / all);
      CrossProducts(left / all, config[i], config[j]);
    }
  }

  lemma CrossProducts(rate: real, a: real, b: real)
    ensures (rate * a) * b == (rate * b) * a
  {
  }

  // ---- Percent boundaries --------------------------------------------------------------------------

  /** The end of the first `i` partitions in whole percent: each share is rounded onto the previous end, capped at
      100, and the last end is 100. */
  function Boundary(sizes: seq<real>, i: nat): int
    requires i <= |sizes| && Sum(sizes) != 0.0
  {
    if i == 0 then 0
    else if i == |sizes| then 100
    else
      var end := (Boundary(sizes, i - 1) as real + Percent(sizes[i - 1], Sum(sizes)) + 0.5).Floor;
      if end > 100 then 100 else end
  }

  /** The mkpart ranges; None where dividing by a total of zero fails. */
  method PercentRanges(sizes: seq<real>, total: real) returns (ranges: Option<seq<(int, int)>>)
    requires total == Sum(sizes)
    ensures ranges.None? <==> sizes != [] && total == 0.0
    ensures ranges.Some? ==> |ranges.value| == |sizes|
    ensures ranges.Some? && sizes != [] ==>
              forall i | 0 <= i < |sizes| :: ranges.value[i].0 == Boundary(sizes, i) && ranges.value[i].1 == Boundary(sizes, i + 1)
  {
    var start: int, list: seq<(int, int)> := 0, [];
    for i := 0 to |sizes|
      invariant |list| == i && (i > 0 ==> total != 0.0 && start == Boundary(sizes, i))
      invariant i == 0 ==> start == 0
      invariant total != 0.0 ==> forall k | 0 <= k < i :: list[k].0 == Boundary(sizes, k) && list[k].1 == Boundary(sizes, k + 1)
    {
      if total == 0.0 {
        return None;
      }
      var end := (start as real + Percent(sizes[i], total) + 0.5).Floor;
      if i == |sizes| - 1 {
        end := 100;
      }
      if end > 100 {
        end := 100;
      }
      list := list + [(start, end)];
      start := end;
    }
    ranges := Some(list);
  }

  /** The exact share of the first `i` partitions in percent. */
  function Exact(sizes: seq<real>, i: nat): real
    requires i <= |sizes| && Sum(sizes) != 0.0
  {
    Percent(Sum(sizes[..i]), Sum(sizes))
  }

  function Percent(part: real, total: real): real
    requires total != 0.0
  {
    part / total * 100.0
  }

  ghost predicate Splittable(sizes: seq<real>) {
    Sum(sizes) > 0.0 && forall i | 0 <= i < |sizes| :: sizes[i] >= 0.0
  }

  lemma {:induction false} PrefixBelow(sizes: seq<real>, i: nat)
    requires Splittable(sizes) && i <= |sizes|
    ensures Sum(sizes[..i]) <= Sum(sizes)
    decreases |sizes| - i
  {
    if i == |sizes| {
      assert sizes[..i] == sizes;
    } else {
      PrefixBelow(sizes, i + 1);
      assert sizes[..i + 1][..i] == sizes[..i];
    }
  }

  lemma ExactStep(sizes: seq<real>, i: nat)
    requires Splittable(sizes) && i < |sizes|
    ensures Exact(sizes, i + 1) == Exact(sizes, i) + Percent(sizes[i], Sum(sizes))
    ensures Percent(sizes[i], Sum(sizes)) >= 0.0 && Exact(sizes, i + 1) <= 100.0
  {
    assert sizes[..i + 1][..i] == sizes[..i];
    PrefixBelow(sizes, i + 1);
    PercentStep(Sum(sizes[..i]), sizes[i], Sum(sizes[..i + 1]), Sum(sizes));
  }

  lemma PercentStep(a: real, b: real, c: real, total: real)
    requires total > 0.0 && b >= 0.0 && c == a + b <= total
    ensures Percent(c, total) == Percent(a, total) + Percent(b, total)
    ensures Percent(b, total) >= 0.0 && Percent(c, total) <= 100.0
  {
  }

  /** Interior boundary i is within i/2 percent of the exact share of the first i partitions, in spite of the
      accumulated rounding and the cap. */
  lemma {:induction false} BoundaryDrift(sizes: seq<real>, i: nat)
    requires Splittable(sizes) && i < |sizes|
    ensures 0 <= Boundary(sizes, i) <= 100
    ensures Exact(sizes, i) - (i as real) / 2.0 <= Boundary(sizes, i) as real <= Exact(sizes, i) + (i as real) / 2.0
  {
    if i > 0 {
      BoundaryDrift(sizes, i - 1);
      ExactStep(sizes, i - 1);
      var x := Boundary(sizes, i - 1) as real + Percent(sizes[i - 1], Sum(sizes)) + 0.5;
      assert x - 1.0 < x.Floor as real <= x;
    } else {
      assert Sum(sizes[..0]) == 0.0;
    }
  }

  lemma FloorAtLeast(x: real, n: int)
    requires x >= n as real
    ensures x.Floor >= n
  {
  }

  lemma BoundaryStep(sizes: seq<real>, i: nat)
    requires Splittable(sizes) && i < |sizes|
    ensures 0 <= Boundary(sizes, i) <= Boundary(sizes, i + 1) <= 100
  {
    BoundaryDrift(sizes, i);
    if i + 1 < |sizes| {
      BoundaryDrift(sizes, i + 1);
      ExactStep(sizes, i);
      FloorAtLeast(Boundary(sizes, i) as real + Percent(sizes[i], Sum(sizes)) + 0.5, Boundary(sizes, i));
    }
  }

  /** Range i lies within 0..100 and does not run backwards. */
  predicate RangeAt(sizes: seq<real>, i: nat)
    requires i < |sizes| && Sum(sizes) != 0.0
  {
    0 <= Boundary(sizes, i) <= Boundary(sizes, i + 1) <= 100
  }

  /** The ranges tile 0..100: they start at 0, end at 100, and none runs backwards. */
  lemma BoundariesTile(sizes: seq<real>)
    requires Splittable(sizes)
    ensures |sizes| > 0 && Boundary(sizes, 0) == 0 && Boundary(sizes, |sizes|) == 100
    ensures forall i | 0 <= i < |sizes| :: RangeAt(sizes, i)
  {
    forall i | 0 <= i < |sizes| ensures RangeAt(sizes, i) {
      BoundaryStep(sizes, i);
    }
  }

  /** The drift bound is attained: of eight equal partitions the seventh ends 3.5 percent late. */
  lemma DriftIsTight()
    ensures var sizes := [1.0, 1.0, 1.0, 1.0, 1.0, 1.0, 1.0, 1.0];
            Splittable(sizes) && Boundary(sizes, 7) == 91 && Exact(sizes, 7) == 87.5
  {
    var sizes := [1.0, 1.0, 1.0, 1.0, 1.0, 1.0, 1.0, 1.0];
    OnesSum(sizes, 7);
    OnesSum(sizes, 8);
    assert sizes[..8] == sizes;
    forall i | 0 <= i < 7 ensures Boundary(sizes, i + 1) == Boundary(sizes, i) + 13 || Boundary(sizes, i) > 87 {
      assert Percent(sizes[i], Sum(sizes)) == 12.5;
    }
    assert Boundary(sizes, 1) == 13;
    assert Boundary(sizes, 2) == 26;
    assert Boundary(sizes, 3) == 39;
    assert Boundary(sizes, 4) == 52;
    assert Boundary(sizes, 5) == 65;
    assert Boundary(sizes, 6) == 78;
  }

  lemma {:induction false} OnesSum(sizes: seq<real>, n: nat)
    requires n <= |sizes| && forall i | 0 <= i < |sizes| :: sizes[i] == 1.0
    ensures Sum(sizes[..n]) == n as real
  {
    if n == 0 {
    } else {
      OnesSum(sizes, n - 1);
      assert sizes[..n][..n - 1] == sizes[..n - 1];
    }
  }

  /** Repartitioning a device divides by zero exactly when there is something to divide but the sizes come to nothing.
      Otherwise the ranges lead from 0 to 100 without a gap, and on a capacity that is not negative none runs backwards. */
  method RepartitionDevice(capacity: real, config: seq<real>) returns (ranges: Option<seq<(int, int)>>)
    ensures ranges.None? <==>
              config != [] && if Proportion(config, |config|) > 0.0 then capacity == 0.0
                              else capacity <= 0.0 || Absolute(config, |config|) == 0.0
    ensures ranges.Some? ==> |ranges.value| == |config|
    ensures ranges.Some? && config != [] ==>
              && ranges.value[0].0 == 0 && ranges.value[|config| - 1].1 == 100
              && (forall i | 0 <= i < |config| - 1 :: ranges.value[i].1 == ranges.value[i + 1].0)
    ensures ranges.Some? && capacity >= 0.0 ==>
              forall i | 0 <= i < |config| :: 0 <= ranges.value[i].0 <= ranges.value[i].1 <= 100
  {
    var sizes := CalculatePartitions(capacity, config);
    var total := Total(sizes);
    SizesSum(capacity, config, sizes);
    AbsoluteNonNegative(config, |config|);
    ranges := PercentRanges(sizes, total);
    assert total != 0.0 && config != [] ==> Boundary(sizes, 0) == 0 && Boundary(sizes, |sizes|) == 100;
    if ranges.Some? && config != [] && capacity >= 0.0 {
      SizesNonNegative(capacity, config, sizes);
      BoundariesTile(sizes);
      forall i | 0 <= i < |config| ensures 0 <= ranges.value[i].0 <= ranges.value[i].1 <= 100 {
        assert RangeAt(sizes, i);
      }
    }
  }

  method Total(sizes: seq<real>) returns (total: real)
    ensures total == Sum(sizes)
  {
    total := 0.0;
    for i := 0 to |sizes|
      invariant total == Sum(sizes[..i])
    {
      assert sizes[..i + 1][..i] == sizes[..i];
      total := total + sizes[i];
    }
    assert sizes[..|sizes|] == sizes;
  }
}

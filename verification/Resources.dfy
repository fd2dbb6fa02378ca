/** The device-count ledger every scheduler and accounting loop updates in place
    (src/ClusterManager/ResourceInfo.py). */
module Resources {

  /** The dictionary a ResourceInfo wraps: device type to count. */
  type Counts = map<string, int>

  /** A count, reading an absent device type as zero. */
  function Count(m: Counts, device: string): int {
    if device in m then m[device] else 0
  }

  /** The device types `need` really asks for are all present in `m`; otherwise Subtract fails on a missing key. */
  predicate Covers(m: Counts, need: Counts) {
    forall k | k in need :: need[k] > 0 ==> k in m
  }

  /** Every positive request is met; requests of zero or less are never refused. */
  predicate Satisfies(m: Counts, need: Counts) {
    forall k | k in need :: need[k] > 0 ==> k in m && m[k] >= need[k]
  }

  function Plus(m: Counts, other: Counts): Counts {
    map k | k in m.Keys + other.Keys :: Count(m, k) + Count(other, k)
  }

  /** Only positive requests are taken away. */
  function Minus(m: Counts, need: Counts): Counts {
    map k | k in m :: if k in need && need[k] > 0 then m[k] - need[k] else m[k]
  }

  function Max(a: int, b: int): int {
    if a >= b then a else b
  }

  function Min(a: int, b: int): int {
    if a <= b then a else b
  }

  /** As Minus, with every key of `need` clamped at zero. */
  function MinusMinZero(m: Counts, need: Counts): Counts {
    map k | k in m :: if k in need then Max(0, m[k] - Max(0, need[k])) else m[k]
  }

  /** Pointwise minimum over the shared keys; the others keep the count of `m`. */
  function Meet(m: Counts, other: Counts): Counts {
    map k | k in m :: if k in other then Min(other[k], m[k]) else m[k]
  }

  class ResourceInfo {
    var counts: Counts

    constructor (res: Counts)
      ensures counts == res
    {
      counts := map[];
      new;
      var todo := res.Keys;
      while todo != {}
        invariant todo <= res.Keys && counts.Keys == res.Keys - todo
        invariant forall k | k in counts :: counts[k] == res[k]
      {
        var key :| key in todo;
        counts := counts[key := res[key]];
        todo := todo - {key};
      }
    }

    method Add(other: ResourceInfo)
      modifies this
      ensures counts == Plus(old(counts), old(other.counts))
    {
      var todo := other.counts.Keys;
      ghost var before, added := counts, other.counts;
      while todo != {}
        invariant todo <= added.Keys && other.counts.Keys == added.Keys
        invariant counts.Keys == before.Keys + (added.Keys - todo)
        invariant forall k | k in counts :: counts[k] == Count(before, k) + if k in todo then 0 else Count(added, k)
        invariant forall k | k in todo :: other.counts[k] == added[k]
      {
        var key :| key in todo;
        if key !in counts {
          counts := counts[key := 0];
        }
        counts := counts[key := counts[key] + other.counts[key]];
        todo := todo - {key};
      }
    }

    method CanSatisfy(other: ResourceInfo) returns (ok: bool)
      ensures ok == Satisfies(counts, other.counts)
    {
      var todo := other.counts.Keys;
      while todo != {}
        invariant todo <= other.counts.Keys
        invariant forall k | k in other.counts.Keys - todo :: other.counts[k] > 0 ==> k in counts && counts[k] >= other.counts[k]
      {
        var key :| key in todo;
        if other.counts[key] > 0 && (key !in counts || counts[key] < other.counts[key]) {
          return false;
        }
        todo := todo - {key};
      }
      return true;
    }

    /** `ok` is false where the original fails on a missing key, leaving some keys already reduced. */
    method Subtract(other: ResourceInfo) returns (ok: bool)
      modifies this
      ensures ok == Covers(old(counts), old(other.counts))
      ensures ok ==> counts == Minus(old(counts), old(other.counts))
      ensures counts.Keys == old(counts.Keys)
    {
      var todo := other.counts.Keys;
      ghost var before, need := counts, other.counts;
      while todo != {}
        invariant todo <= need.Keys && counts.Keys == before.Keys && other.counts.Keys == need.Keys
        invariant forall k | k in todo :: other.counts[k] == need[k]
        invariant forall k | k in need.Keys - todo :: need[k] > 0 ==> k in before
        invariant forall k | k in counts ::
                    counts[k] == if k in need.Keys - todo then Minus(before, need)[k] else before[k]
      {
        var key :| key in todo;
        if other.counts[key] > 0 {
          if key !in counts {
            return false;
          }
          counts := counts[key := counts[key] - other.counts[key]];
        }
        todo := todo - {key};
      }
      return true;
    }

    method SubtractMinZero(other: ResourceInfo) returns (ok: bool)
      modifies this
      ensures ok == Covers(old(counts), old(other.counts))
      ensures ok ==> counts == MinusMinZero(old(counts), old(other.counts))
      ensures counts.Keys == old(counts.Keys)
    {
      var todo := other.counts.Keys;
      ghost var before, need := counts, other.counts;
      while todo != {}
        invariant todo <= need.Keys && counts.Keys == before.Keys && other.counts.Keys == need.Keys
        invariant forall k | k in todo :: other.counts[k] == need[k]
        invariant forall k | k in need.Keys - todo :: need[k] > 0 ==> k in before
        invariant forall k | k in counts ::
                    counts[k] == if k in need.Keys - todo then MinusMinZero(before, need)[k] else before[k]
      {
        var key :| key in todo;
        if other.counts[key] > 0 {
          if key !in counts {
            return false;
          }
          counts := counts[key := counts[key] - other.counts[key]];
        }
        if key in counts && counts[key] < 0 {
          counts := counts[key := 0];
        }
        todo := todo - {key};
      }
      return true;
    }

    method GetMinValue(other: ResourceInfo)
      modifies this
      ensures counts == Meet(old(counts), old(other.counts))
    {
      var todo := other.counts.Keys;
      ghost var before, limits := counts, other.counts;
      while todo != {}
        invariant todo <= limits.Keys && counts.Keys == before.Keys && other.counts.Keys == limits.Keys
        invariant forall k | k in todo :: other.counts[k] == limits[k]
        invariant forall k | k in counts ::
                    counts[k] == if k in limits.Keys - todo then Min(limits[k], before[k]) else before[k]
      {
        var key :| key in todo;
        if key in counts {
          counts := counts[key := Min(other.counts[key], counts[key])];
        }
        todo := todo - {key};
      }
    }

    static method Difference(a: ResourceInfo, b: ResourceInfo) returns (diff: ResourceInfo, ok: bool)
      ensures fresh(diff)
      ensures ok == Covers(a.counts, b.counts)
      ensures ok ==> diff.counts == Minus(a.counts, b.counts)
    {
      diff := new ResourceInfo(map[]);
      diff.Add(a);
      assert diff.counts == a.counts;
      ok := diff.Subtract(b);
    }

    static method DifferenceMinZero(a: ResourceInfo, b: ResourceInfo) returns (diff: ResourceInfo, ok: bool)
      ensures fresh(diff)
      ensures ok == Covers(a.counts, b.counts)
      ensures ok ==> diff.counts == MinusMinZero(a.counts, b.counts)
    {
      diff := new ResourceInfo(map[]);
      diff.Add(a);
      assert diff.counts == a.counts;
      ok := diff.SubtractMinZero(b);
    }
  }

  /** A granted request can always be charged, charging never drives a requested count below zero,
      and adding a non-negative request back restores the ledger. */
  lemma GrantThenRelease(m: Counts, need: Counts)
    requires Satisfies(m, need)
    ensures Covers(m, need)
    ensures forall k | k in need && need[k] > 0 :: Minus(m, need)[k] >= 0
    ensures (forall k | k in need :: need[k] >= 0 && k in m) ==> Plus(Minus(m, need), need) == m
  {
    if forall k | k in need :: need[k] >= 0 && k in m {
      assert Plus(Minus(m, need), need).Keys == m.Keys;
    }
  }

  /** Reporting the minimum of quota and capacity in place is repeatable: a second report of the same
      two ledgers shows the same counts, although the first one overwrote the quota. */
  lemma MeetTwice(m: Counts, other: Counts)
    ensures Meet(Meet(m, other), other) == Meet(m, other)
    ensures forall k | k in m && k in other :: Meet(m, other)[k] <= m[k] && Meet(m, other)[k] <= other[k]
  {
    assert Meet(Meet(m, other), other).Keys == Meet(m, other).Keys;
  }
}

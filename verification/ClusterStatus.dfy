/** Device accounting over the nodes of the cluster (src/ClusterManager/node_manager.py, get_cluster_status from the
    collected node statuses on). */
module ClusterStatus {
  import opened Jobs
  import opened Resources

  /** A node's status as collected: each table is empty or has the node's device type as its only key. */
  datatype NodeStatus = NodeStatus(name: string, gpuType: string, allocatable: Counts, capacity: Counts, used: Counts,
                                   unschedulable: bool)

  predicate Single(m: Counts, gpuType: string) {
    forall k | k in m :: k == gpuType && m[k] >= 0
  }

  predicate Collected(n: NodeStatus) {
    Single(n.allocatable, n.gpuType) && Single(n.capacity, n.gpuType) && Single(n.used, n.gpuType)
  }

  datatype Detail = Detail(nodeName: string, capacity: int, allocatable: int)

  datatype Report = Report(available: Counts, reserved: Counts, capacity: Counts, unschedulable: Counts, used: Counts,
                           details: map<string, seq<Detail>>)

  /** A subtraction meets a device type that the node does not list. */
  predicate Fails(n: NodeStatus) {
    if n.unschedulable then !Covers(n.capacity, n.used)
    else !Covers(n.allocatable, n.used) || !Covers(n.capacity, n.allocatable)
  }

  // ---- What each total adds for one node -----------------------------------------------------------

  function AddAvailable(n: NodeStatus): Counts {
    if n.unschedulable then map[] else MinusMinZero(n.allocatable, n.used)
  }

  function AddReserved(n: NodeStatus): Counts {
    if n.unschedulable then Minus(n.capacity, n.used) else Minus(n.capacity, n.allocatable)
  }

  function AddUnschedulable(n: NodeStatus): Counts {
    if n.unschedulable then n.capacity else Minus(n.capacity, n.allocatable)
  }

  function DetailOf(n: NodeStatus): Detail {
    Detail(n.name, Count(n.capacity, n.gpuType),
           if n.unschedulable then 0
           else if n.gpuType in n.allocatable then Max(n.allocatable[n.gpuType] - Count(n.used, n.gpuType), 0) else 0)
  }

  function WithNode(r: Report, n: NodeStatus): Report {
    Report(Plus(r.available, AddAvailable(n)), Plus(r.reserved, AddReserved(n)), Plus(r.capacity, n.capacity),
           Plus(r.unschedulable, AddUnschedulable(n)), Plus(r.used, n.used),
           if n.gpuType != "" && n.gpuType in r.details
           then r.details[n.gpuType := r.details[n.gpuType] + [DetailOf(n)]] else r.details)
  }

  /** The report after the nodes, for the device types that have an entry in the device mapping. */
  function ReportOf(nodes: seq<NodeStatus>, mapped: set<string>): Report {
    if nodes == [] then Report(map[], map[], map[], map[], map[], map t | t in mapped :: [])
    else WithNode(ReportOf(nodes[..|nodes| - 1], mapped), nodes[|nodes| - 1])
  }

  /** The running totals of the loop. */
  class Totals {
    const available: ResourceInfo
    const reserved: ResourceInfo
    const capacity: ResourceInfo
    const unschedulable: ResourceInfo
    const used: ResourceInfo
    var details: map<string, seq<Detail>>

    ghost predicate Valid() {
      && available !in {reserved, capacity, unschedulable, used}
      && reserved !in {capacity, unschedulable, used}
      && capacity !in {unschedulable, used}
      && unschedulable != used
    }

    ghost function Current(): Report
      reads this, available, reserved, capacity, unschedulable, used
    {
      Report(available.counts, reserved.counts, capacity.counts, unschedulable.counts, used.counts, details)
    }

    constructor (mapped: set<string>)
      ensures Valid() && fresh({available, reserved, capacity, unschedulable, used})
      ensures Current() == ReportOf([], mapped)
    {
      available := new ResourceInfo(map[]);
      reserved := new ResourceInfo(map[]);
      capacity := new ResourceInfo(map[]);
      unschedulable := new ResourceInfo(map[]);
      used := new ResourceInfo(map[]);
      details := map t | t in mapped :: [];
    }

    /** An unschedulable node: all of its capacity is unschedulable, what is not used is reserved. */
    method AddUnschedulableNode(n: NodeStatus) returns (ok: bool)
      requires Valid() && n.unschedulable
      modifies unschedulable, reserved
      ensures ok == Covers(n.capacity, n.used)
      ensures ok ==> reserved.counts == Plus(old(reserved.counts), AddReserved(n))
      ensures ok ==> unschedulable.counts == Plus(old(unschedulable.counts), AddUnschedulable(n))
    {
      var nodeCapacity := new ResourceInfo(n.capacity);
      var nodeUsed := new ResourceInfo(n.used);
      unschedulable.Add(nodeCapacity);
      var left;
      left, ok := ResourceInfo.Difference(nodeCapacity, nodeUsed);
      if ok {
        reserved.Add(left);
      }
    }

    /** A schedulable node: what is allocatable and unused is available, what is not allocatable is reserved. */
    method AddSchedulableNode(n: NodeStatus) returns (ok: bool)
      requires Valid() && !n.unschedulable
      modifies available, unschedulable, reserved
      ensures ok == !Fails(n)
      ensures ok ==> available.counts == Plus(old(available.counts), AddAvailable(n))
      ensures ok ==> reserved.counts == Plus(old(reserved.counts), AddReserved(n))
      ensures ok ==> unschedulable.counts == Plus(old(unschedulable.counts), AddUnschedulable(n))
    {
      var nodeCapacity := new ResourceInfo(n.capacity);
      var nodeUsed := new ResourceInfo(n.used);
      var allocatable := new ResourceInfo(n.allocatable);
      var diff;
      diff, ok := ResourceInfo.DifferenceMinZero(allocatable, nodeUsed);
      if !ok {
        return;
      }
      available.Add(diff);
      diff, ok := ResourceInfo.Difference(nodeCapacity, allocatable);
      if !ok {
        return;
      }
      unschedulable.Add(diff);
      reserved.Add(diff);
    }

    method AddNode(n: NodeStatus) returns (ok: bool)
      requires Valid()
      modifies this`details, available, reserved, capacity, unschedulable, used
      ensures ok == !Fails(n)
      ensures ok ==> Current() == WithNode(old(Current()), n)
    {
      PlusNothing(available.counts);
      if n.unschedulable {
        ok := AddUnschedulableNode(n);
      } else {
        ok := AddSchedulableNode(n);
      }
      if ok {
        if n.gpuType != "" && n.gpuType in details {
          details := details[n.gpuType := details[n.gpuType] + [DetailOf(n)]];
        }
        var nodeUsed := new ResourceInfo(n.used);
        var nodeCapacity := new ResourceInfo(n.capacity);
        used.Add(nodeUsed);
        capacity.Add(nodeCapacity);
      }
    }
  }

  lemma PlusNothing(m: Counts)
    ensures Plus(m, map[]) == m
  {
  }

  predicate NoneFails(nodes: seq<NodeStatus>, n: nat)
    requires n <= |nodes|
  {
    forall i | 0 <= i < n :: !Fails(nodes[i])
  }

  /** None where a subtraction fails and the whole report is given up. */
  method GetClusterStatus(nodes: seq<NodeStatus>, mapped: set<string>) returns (r: Option<Report>)
    ensures r.Some? <==> NoneFails(nodes, |nodes|)
    ensures r.Some? ==> r.value == ReportOf(nodes, mapped)
  {
    var totals := new Totals(mapped);
    for i := 0 to |nodes|
      invariant totals.Valid() && fresh(totals) && totals.Current() == ReportOf(nodes[..i], mapped)
      invariant fresh({totals.available, totals.reserved, totals.capacity, totals.unschedulable, totals.used})
      invariant NoneFails(nodes, i)
    {
      assert nodes[..i + 1][..i] == nodes[..i];
      var ok := totals.AddNode(nodes[i]);
      if !ok {
        return None;
      }
      assert !Fails(nodes[i]);
    }
    assert nodes[..|nodes|] == nodes;
    r := Some(Report(totals.available.counts, totals.reserved.counts, totals.capacity.counts, totals.unschedulable.counts,
                     totals.used.counts, totals.details));
  }

  // ---- The totals agree ----------------------------------------------------------------------------

  lemma CountPlus(a: Counts, b: Counts, d: string)
    ensures Count(Plus(a, b), d) == Count(a, d) + Count(b, d)
  {
  }

  /** How many devices of a type the schedulable nodes use beyond what they may allocate. */
  function Excess(nodes: seq<NodeStatus>, d: string): nat {
    if nodes == [] then 0
    else
      var n := nodes[|nodes| - 1];
      Excess(nodes[..|nodes| - 1], d) + if n.unschedulable then 0 else Max(0, Count(n.used, d) - Count(n.allocatable, d))
  }

  lemma NodeBalance(n: NodeStatus, d: string)
    requires Collected(n) && !Fails(n)
    ensures Count(AddAvailable(n), d) + Count(n.used, d) + Count(AddReserved(n), d) ==
            Count(n.capacity, d) + if n.unschedulable then 0 else Max(0, Count(n.used, d) - Count(n.allocatable, d))
  {
  }

  /** Available, used and reserved devices add up to the capacity plus exactly the excess on schedulable nodes. */
  lemma {:induction false} TotalsBalance(nodes: seq<NodeStatus>, mapped: set<string>, d: string)
    requires forall i | 0 <= i < |nodes| :: Collected(nodes[i]) && !Fails(nodes[i])
    ensures var r := ReportOf(nodes, mapped);
            Count(r.available, d) + Count(r.used, d) + Count(r.reserved, d) == Count(r.capacity, d) + Excess(nodes, d)
  {
    if nodes == [] {
    } else {
      var k := |nodes| - 1;
      var n, r := nodes[k], ReportOf(nodes[..k], mapped);
      TotalsBalance(nodes[..k], mapped, d);
      NodeBalance(n, d);
      CountPlus(r.available, AddAvailable(n), d);
      CountPlus(r.used, n.used, d);
      CountPlus(r.reserved, AddReserved(n), d);
      CountPlus(r.capacity, n.capacity, d);
    }
  }

  lemma {:induction false} ExcessIsOveruse(nodes: seq<NodeStatus>, d: string)
    ensures Excess(nodes, d) == 0 <==>
            forall i | 0 <= i < |nodes| && !nodes[i].unschedulable :: Count(nodes[i].used, d) <= Count(nodes[i].allocatable, d)
  {
    if nodes == [] {
    } else {
      ExcessIsOveruse(nodes[..|nodes| - 1], d);
    }
  }

  /** The three totals add up to the capacity exactly when no schedulable node uses more than it may allocate. */
  lemma BalanceExactly(nodes: seq<NodeStatus>, mapped: set<string>, d: string)
    requires forall i | 0 <= i < |nodes| :: Collected(nodes[i]) && !Fails(nodes[i])
    ensures var r := ReportOf(nodes, mapped);
            Count(r.available, d) + Count(r.used, d) + Count(r.reserved, d) == Count(r.capacity, d) <==>
            forall i | 0 <= i < |nodes| && !nodes[i].unschedulable :: Count(nodes[i].used, d) <= Count(nodes[i].allocatable, d)
  {
    TotalsBalance(nodes, mapped, d);
    ExcessIsOveruse(nodes, d);
  }

  function SumAllocatable(details: seq<Detail>): int {
    if details == [] then 0 else SumAllocatable(details[..|details| - 1]) + details[|details| - 1].allocatable
  }

  function SumCapacity(details: seq<Detail>): int {
    if details == [] then 0 else SumCapacity(details[..|details| - 1]) + details[|details| - 1].capacity
  }

  lemma SumsAppend(details: seq<Detail>, x: Detail)
    ensures SumAllocatable(details + [x]) == SumAllocatable(details) + x.allocatable
    ensures SumCapacity(details + [x]) == SumCapacity(details) + x.capacity
  {
    assert (details + [x])[..|details|] == details;
  }

  lemma DetailAgrees(n: NodeStatus, d: string)
    requires Collected(n) && !Fails(n)
    ensures Count(AddAvailable(n), d) == if n.gpuType == d then DetailOf(n).allocatable else 0
    ensures Count(n.capacity, d) == if n.gpuType == d then DetailOf(n).capacity else 0
  {
  }

  predicate DetailsAgree(r: Report, d: string) {
    && d in r.details
    && SumAllocatable(r.details[d]) == Count(r.available, d)
    && SumCapacity(r.details[d]) == Count(r.capacity, d)
  }

  lemma DetailsStep(r: Report, n: NodeStatus, d: string)
    requires DetailsAgree(r, d) && Collected(n) && !Fails(n) && d != ""
    ensures DetailsAgree(WithNode(r, n), d)
  {
    DetailAgrees(n, d);
    CountPlus(r.available, AddAvailable(n), d);
    CountPlus(r.capacity, n.capacity, d);
    SumsAppend(r.details[d], DetailOf(n));
  }

  lemma DetailsOfNothing(mapped: set<string>, d: string)
    requires d in mapped
    ensures DetailsAgree(ReportOf([], mapped), d)
  {
  }

  /** For every mapped device type the per-node figures sum to the reported available count and capacity. */
  lemma {:induction false} DetailsBalance(nodes: seq<NodeStatus>, mapped: set<string>, d: string)
    requires forall i | 0 <= i < |nodes| :: Collected(nodes[i]) && !Fails(nodes[i])
    requires d in mapped && d != ""
    ensures DetailsAgree(ReportOf(nodes, mapped), d)
  {
    if nodes == [] {
      DetailsOfNothing(mapped, d);
    } else {
      var k := |nodes| - 1;
      DetailsBalance(nodes[..k], mapped, d);
      DetailsStep(ReportOf(nodes[..k], mapped), nodes[k], d);
    }
  }

  // ---- Each total by itself ------------------------------------------------------------------------------

  datatype Column = Allocatable | Capacity | Used

  function Entry(n: NodeStatus, column: Column, d: string): int {
    var table := match column case Allocatable => n.allocatable case Capacity => n.capacity case Used => n.used;
    if d in table then table[d] else 0
  }

  /** The sum of a column over the schedulable nodes, or over the others. */
  function ColumnSum(nodes: seq<NodeStatus>, column: Column, d: string, unschedulable: bool): int {
    if nodes == [] then 0
    else
      ColumnSum(nodes[..|nodes| - 1], column, d, unschedulable) +
      if nodes[|nodes| - 1].unschedulable == unschedulable then Entry(nodes[|nodes| - 1], column, d) else 0
  }

  lemma NodeEntries(n: NodeStatus, d: string)
    requires Collected(n) && !Fails(n)
    ensures Count(AddUnschedulable(n), d) == Entry(n, Capacity, d) - if n.unschedulable then 0 else Entry(n, Allocatable, d)
    ensures Count(AddReserved(n), d) == Count(AddUnschedulable(n), d) - if n.unschedulable then Entry(n, Used, d) else 0
    ensures Count(n.capacity, d) == Entry(n, Capacity, d) && Count(n.used, d) == Entry(n, Used, d)
  {
  }

  /** Capacity and use are the sums over all nodes. What is unschedulable is the capacity without what schedulable nodes
      may allocate, and what is reserved is the part of it that unschedulable nodes do not use. */
  lemma {:induction false} TotalsExactly(nodes: seq<NodeStatus>, mapped: set<string>, d: string)
    requires forall i | 0 <= i < |nodes| :: Collected(nodes[i]) && !Fails(nodes[i])
    ensures var r := ReportOf(nodes, mapped);
            && Count(r.capacity, d) == ColumnSum(nodes, Capacity, d, false) + ColumnSum(nodes, Capacity, d, true)
            && Count(r.used, d) == ColumnSum(nodes, Used, d, false) + ColumnSum(nodes, Used, d, true)
            && Count(r.unschedulable, d) + ColumnSum(nodes, Allocatable, d, false) == Count(r.capacity, d)
            && Count(r.reserved, d) + ColumnSum(nodes, Used, d, true) == Count(r.unschedulable, d)
  {
    if nodes == [] {
    } else {
      var k := |nodes| - 1;
      var n, r := nodes[k], ReportOf(nodes[..k], mapped);
      TotalsExactly(nodes[..k], mapped, d);
      NodeEntries(n, d);
      CountPlus(r.capacity, n.capacity, d);
      CountPlus(r.used, n.used, d);
      CountPlus(r.unschedulable, AddUnschedulable(n), d);
      CountPlus(r.reserved, AddReserved(n), d);
    }
  }

  /** One line per node of the type, in the order of the nodes: its capacity, and what it may still allocate. */
  function DetailLines(nodes: seq<NodeStatus>, d: string): seq<Detail> {
    if nodes == [] then []
    else
      var n := nodes[|nodes| - 1];
      var left := Entry(n, Allocatable, d) - Entry(n, Used, d);
      DetailLines(nodes[..|nodes| - 1], d) +
      if n.gpuType != d then [] else [Detail(n.name, Entry(n, Capacity, d), if n.unschedulable || left < 0 then 0 else left)]
  }

  lemma {:induction false} DetailsUpTo(nodes: seq<NodeStatus>, mapped: set<string>, d: string, k: nat)
    requires forall i | 0 <= i < |nodes| :: Collected(nodes[i]) && !Fails(nodes[i])
    requires d in mapped && d != "" && k <= |nodes|
    ensures HasDetails(ReportOf(nodes[..k], mapped), d, DetailLines(nodes[..k], d))
  {
    if k == 0 {
      DetailsOfNothing(mapped, d);
    } else {
      var n := nodes[k - 1];
      DetailsUpTo(nodes, mapped, d, k - 1);
      DetailsNext(ReportOf(nodes[..k - 1], mapped), n, d, DetailLines(nodes[..k - 1], d));
      LastReport(nodes, mapped, k);
      LastLines(nodes, d, k);
    }
  }

  lemma {:induction false} LastReport(nodes: seq<NodeStatus>, mapped: set<string>, k: nat)
    requires 0 < k <= |nodes|
    ensures ReportOf(nodes[..k], mapped) == WithNode(ReportOf(nodes[..k - 1], mapped), nodes[k - 1])
  {
    assert nodes[..k][..k - 1] == nodes[..k - 1];
  }

  lemma {:induction false} LastLines(nodes: seq<NodeStatus>, d: string, k: nat)
    requires 0 < k <= |nodes|
    ensures DetailLines(nodes[..k], d) == DetailLines(nodes[..k - 1], d) + DetailLines([nodes[k - 1]], d)
  {
    assert nodes[..k][..k - 1] == nodes[..k - 1];
    assert [nodes[k - 1]][..0] == [];
  }

  /** The details of a mapped type are exactly those lines. */
  lemma DetailsExactly(nodes: seq<NodeStatus>, mapped: set<string>, d: string)
    requires forall i | 0 <= i < |nodes| :: Collected(nodes[i]) && !Fails(nodes[i])
    requires d in mapped && d != ""
    ensures HasDetails(ReportOf(nodes, mapped), d, DetailLines(nodes, d))
  {
    DetailsUpTo(nodes, mapped, d, |nodes|);
    assert nodes[..|nodes|] == nodes;
  }

  predicate HasDetails(r: Report, d: string, lines: seq<Detail>) {
    d in r.details && r.details[d] == lines
  }

  lemma DetailsNext(r: Report, n: NodeStatus, d: string, lines: seq<Detail>)
    requires Collected(n) && !Fails(n) && d != "" && HasDetails(r, d, lines)
    ensures HasDetails(WithNode(r, n), d, lines + DetailLines([n], d))
  {
    assert [n][..0] == [];
    if n.gpuType == d { DetailEntry(n, d); }
  }

  lemma DetailEntry(n: NodeStatus, d: string)
    requires Collected(n) && !Fails(n) && n.gpuType == d
    ensures var left := Entry(n, Allocatable, d) - Entry(n, Used, d);
            DetailOf(n) == Detail(n.name, Entry(n, Capacity, d), if n.unschedulable || left < 0 then 0 else left)
  {
  }
}

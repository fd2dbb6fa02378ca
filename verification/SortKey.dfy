/** The textual sort key of a scheduling round and the order it induces
    (src/ClusterManager/job_manager.py, TakeJobActions). */
module SortKey {
  import opened Jobs
  import opened StableSort

  // ---- Character-by-character comparison -----------------------------------------------------------

  /** Strict lexicographic order of strings. */
  predicate StrLess(a: string, b: string) {
    if b == "" then false
    else if a == "" then true
    else if a[0] != b[0] then a[0] < b[0]
    else StrLess(a[1..], b[1..])
  }

  /** One string is less where they first differ, or it ends before the other. */
  ghost predicate DiffersAt(a: string, b: string, k: nat) {
    k <= |a| && k < |b| && a[..k] == b[..k] && (k == |a| || a[k] < b[k])
  }

  lemma FirstAgrees(a: string, b: string, k: nat)
    requires DiffersAt(a, b, k)
    ensures k > 0 ==> a != "" && a[0] == b[0]
  {
    if k > 0 { assert a[..k][0] == b[..k][0]; }
  }

  lemma {:induction false} StrLessMeans(a: string, b: string)
    ensures StrLess(a, b) <==> exists k: nat :: DiffersAt(a, b, k)
  {
    if b == "" {
    } else if a == "" || a[0] != b[0] {
      assert DiffersAt(a, b, 0) <==> a == "" || a[0] < b[0];
      forall k: nat | DiffersAt(a, b, k) ensures k == 0 {
        FirstAgrees(a, b, k);
      }
    } else {
      StrLessMeans(a[1..], b[1..]);
      if k: nat :| DiffersAt(a[1..], b[1..], k) {
        assert a[..k + 1] == [a[0]] + a[1..][..k] && b[..k + 1] == [b[0]] + b[1..][..k];
        assert DiffersAt(a, b, k + 1);
      }
      if k: nat :| DiffersAt(a, b, k) {
        assert k > 0 && a[1..][..k - 1] == a[..k][1..] && b[1..][..k - 1] == b[..k][1..];
        assert DiffersAt(a[1..], b[1..], k - 1);
      }
    }
  }

  lemma {:induction false} StrLessTotal(a: string, b: string)
    ensures !(StrLess(a, b) && StrLess(b, a))
    ensures a == b <==> !StrLess(a, b) && !StrLess(b, a)
  {
    if a != "" && b != "" {
      StrLessTotal(a[1..], b[1..]);
      assert a == [a[0]] + a[1..] && b == [b[0]] + b[1..];
    }
  }

  lemma {:induction false} StrLessTransitive(a: string, b: string, c: string)
    requires !StrLess(b, a) && !StrLess(c, b)
    ensures !StrLess(c, a)
  {
    if a != "" && b != "" && c != "" && a[0] == b[0] == c[0] {
      StrLessTransitive(a[1..], b[1..], c[1..]);
    }
  }

  /** Strings that start with parts of equal length are ordered by those parts first, by the rest second. */
  lemma {:induction false} StrLessConcat(a: string, x: string, b: string, y: string)
    requires |a| == |b|
    ensures StrLess(a + x, b + y) <==> if a == b then StrLess(x, y) else StrLess(a, b)
  {
    if a == "" {
      assert a + x == x && b + y == y;
    } else {
      assert (a + x)[1..] == a[1..] + x && (b + y)[1..] == b[1..] + y;
      StrLessConcat(a[1..], x, b[1..], y);
      assert a == [a[0]] + a[1..] && b == [b[0]] + b[1..];
    }
  }

  // ---- Decimal formatting --------------------------------------------------------------------------

  function Digit(d: nat): char
    requires d < 10
  {
    '0' + d as char
  }

  function Decimal(n: nat): string {
    if n < 10 then [Digit(n)] else Decimal(n / 10) + [Digit(n % 10)]
  }

  function ZeroFill(s: string, width: nat): string
    decreases width - |s|
  {
    if |s| >= width then s else ZeroFill("0" + s, width)
  }

  /** Python's "{:06d}": zero padding to six characters, the sign included. */
  function Padded(n: int): string {
    if n >= 0 then ZeroFill(Decimal(n), 6) else "-" + ZeroFill(Decimal(-n), 5)
  }

  /** Exactly `width` decimal digits. */
  function Fixed(n: nat, width: nat): string {
    if width == 0 then "" else Fixed(n / 10, width - 1) + [Digit(n % 10)]
  }

  function Pow10(k: nat): nat {
    if k == 0 then 1 else 10 * Pow10(k - 1)
  }

  lemma {:induction false} FixedLength(n: nat, width: nat)
    ensures |Fixed(n, width)| == width
  {
    if width == 0 {
    } else {
      FixedLength(n / 10, width - 1);
    }
  }

  /** Fixed-width decimals compare as the numbers they write. */
  lemma {:induction false} FixedOrder(n: nat, m: nat, width: nat)
    requires n < Pow10(width) && m < Pow10(width)
    ensures StrLess(Fixed(n, width), Fixed(m, width)) <==> n < m
    ensures Fixed(n, width) == Fixed(m, width) <==> n == m
  {
    if width == 0 {
    } else {
      FixedOrder(n / 10, m / 10, width - 1);
      FixedLength(n / 10, width - 1);
      FixedLength(m / 10, width - 1);
      var a, b := Fixed(n / 10, width - 1), Fixed(m / 10, width - 1);
      var x, y := [Digit(n % 10)], [Digit(m % 10)];
      StrLessConcat(a, x, b, y);
      assert (a + x)[..width - 1] == a && (b + y)[..width - 1] == b;
      assert (a + x)[width - 1] == x[0] && (b + y)[width - 1] == y[0];
    }
  }

  lemma ZeroFillStep(n: nat, width: nat)
    requires n < Pow10(width) && width > 0
    ensures |Decimal(n)| <= width && ZeroFill(Decimal(n), width) == Fixed(n, width)
  {
    ZeroFillIsFixed(n, width, "");
    assert Decimal(n) + "" == Decimal(n) && Fixed(n, width) + "" == Fixed(n, width);
  }

  /** Padding the decimal digits of a small enough number on the left yields its fixed-width form. */
  lemma {:induction false} ZeroFillIsFixed(n: nat, width: nat, rest: string)
    requires n < Pow10(width) && width > 0
    ensures |Decimal(n)| <= width
    ensures ZeroFill(Decimal(n) + rest, width + |rest|) == Fixed(n, width) + rest
  {
    if n < 10 {
      FillZeros(n, width, rest);
    } else {
      ZeroFillIsFixed(n / 10, width - 1, [Digit(n % 10)] + rest);
      assert Decimal(n / 10) + ([Digit(n % 10)] + rest) == Decimal(n) + rest;
      assert Fixed(n / 10, width - 1) + ([Digit(n % 10)] + rest) == Fixed(n, width) + rest;
    }
  }

  lemma {:induction false} FillZeros(n: nat, width: nat, rest: string)
    requires n < 10 && width > 0
    ensures ZeroFill([Digit(n)] + rest, width + |rest|) == Fixed(n, width) + rest
  {
    FillZerosFrom([Digit(n)] + rest, width - 1);
    ZerosAre(width - 1);
    assert Fixed(0, width - 1) + ([Digit(n)] + rest) == Fixed(n, width) + rest;
  }

  lemma {:induction false} ZerosAre(k: nat)
    ensures |Fixed(0, k)| == k && "0" + Fixed(0, k) == Fixed(0, k) + "0"
  {
    if k == 0 {
    } else {
      ZerosAre(k - 1);
      assert "0" + (Fixed(0, k - 1) + "0") == ("0" + Fixed(0, k - 1)) + "0";
    }
  }

  lemma {:induction false} FillZerosFrom(s: string, k: nat)
    ensures ZeroFill(s, k + |s|) == Fixed(0, k) + s
    decreases k
  {
    if k > 0 {
      FillZerosFrom("0" + s, k - 1);
      assert Fixed(0, k) + s == Fixed(0, k - 1) + ("0" + s);
    } else {
      assert Fixed(0, k) + s == s;
    }
  }

  lemma SixDigits()
    ensures Pow10(6) == 1000000 && Pow10(5) == 100000
  {
    assert Pow10(2) == 100;
    assert Pow10(4) == 100 * Pow10(2);
  }

  /** For a key number of at most six digits, or the single negative one, padded text orders as the numbers. */
  lemma PaddedOrder(n: int, m: int)
    requires -1 <= n <= 999999 && -1 <= m <= 999999
    ensures |Padded(n)| == |Padded(m)| == 6
    ensures StrLess(Padded(n), Padded(m)) <==> n < m
    ensures Padded(n) == Padded(m) <==> n == m
  {
    SixDigits();
    PaddedShape(n);
    PaddedShape(m);
    if n >= 0 && m >= 0 {
      FixedOrder(n, m, 6);
    } else {
      StrLessTotal(Padded(n), Padded(m));
    }
  }

  lemma PaddedShape(n: int)
    requires -1 <= n <= 999999
    ensures |Padded(n)| == 6
    ensures if n >= 0 then Padded(n) == Fixed(n, 6) && '0' <= Padded(n)[0] else Padded(n)[0] == '-'
  {
    SixDigits();
    if n >= 0 {
      ZeroFillStep(n, 6);
      FixedLength(n, 6);
      FixedHead(n, 6);
    } else {
      ZeroFillStep(1, 5);
      FixedLength(1, 5);
    }
  }

  lemma {:induction false} FixedHead(n: nat, width: nat)
    requires width > 0
    ensures |Fixed(n, width)| == width && '0' <= Fixed(n, width)[0] <= '9'
  {
    FixedLength(n, width);
    if width > 1 {
      FixedHead(n / 10, width - 1);
    }
  }

  // ---- The key -------------------------------------------------------------------------------------

  type Priorities = map<JobId, int>

  /** Jobs without a recorded priority get 100. */
  function PriorityOf(priorities: Priorities, id: JobId): int {
    if id in priorities then priorities[id] else 100
  }

  function Flag(preemptible: bool): nat {
    if preemptible then 1 else 0
  }

  function Rank(status: Status): nat {
    if status == Scheduling then 1 else if status == Queued then 2 else 0
  }

  /** The "{:06d}_{}" part of the key: the reversed priority and the time. */
  function KeyTail(priorities: Priorities, job: Job): string {
    Padded(999999 - PriorityOf(priorities, job.id)) + ("_" + job.spec.time)
  }

  /** "{}_{}_{:06d}_{}" of the preemptible flag, the status rank, the reversed priority and the time. */
  function Key(priorities: Priorities, job: Job): string {
    ([Digit(Flag(job.spec.preemptible))] + "_") + (([Digit(Rank(job.status))] + "_") + KeyTail(priorities, job))
  }

  /** Running before scheduling before queued. */
  predicate StatusBefore(a: Status, b: Status) {
    || (a != Scheduling && a != Queued && (b == Scheduling || b == Queued))
    || (a == Scheduling && b == Queued)
  }

  /** The priority the promised order goes by: the recorded one, or the default. */
  function Recorded(priorities: Priorities, id: JobId): int {
    if id !in priorities then 100 else priorities[id]
  }

  /** The order the comments of the original promise: non-preemptible before preemptible, running before
      scheduling before queued, higher priority before lower, earlier time text before later. */
  predicate Before(priorities: Priorities, a: Job, b: Job) {
    var (p, q) := (Recorded(priorities, a.id), Recorded(priorities, b.id));
    if a.spec.preemptible != b.spec.preemptible then b.spec.preemptible
    else if StatusBefore(a.status, b.status) || StatusBefore(b.status, a.status) then StatusBefore(a.status, b.status)
    else if p != q then p > q
    else StrLess(a.spec.time, b.spec.time)
  }

  predicate PriorityInRange(p: int) {
    0 <= p <= 1000000
  }

  /** Comparing the formatted keys character by character is comparing the tuples. */
  lemma KeyOrder(priorities: Priorities, a: Job, b: Job)
    requires PriorityInRange(Recorded(priorities, a.id)) && PriorityInRange(Recorded(priorities, b.id))
    ensures StrLess(Key(priorities, a), Key(priorities, b)) <==> Before(priorities, a, b)
  {
    var (n, m) := (999999 - Recorded(priorities, a.id), 999999 - Recorded(priorities, b.id));
    KeySplit(priorities, a, b);
    PaddedOrder(n, m);
    StrLessConcat(Padded(n), "_" + a.spec.time, Padded(m), "_" + b.spec.time);
    StrLessConcat("_", a.spec.time, "_", b.spec.time);
  }

  /** Whatever the priorities, the flag and the status rank decide first. */
  lemma KeySplit(priorities: Priorities, a: Job, b: Job)
    ensures StrLess(Key(priorities, a), Key(priorities, b)) <==>
            (var (fa, fb) := (Flag(a.spec.preemptible), Flag(b.spec.preemptible));
             var (ra, rb) := (Rank(a.status), Rank(b.status));
             fa < fb || (fa == fb && (ra < rb || (ra == rb &&
             StrLess(KeyTail(priorities, a), KeyTail(priorities, b))))))
  {
    var (xa, xb) := ([Digit(Flag(a.spec.preemptible))] + "_", [Digit(Flag(b.spec.preemptible))] + "_");
    var (ya, yb) := ([Digit(Rank(a.status))] + "_", [Digit(Rank(b.status))] + "_");
    var (ta, tb) := (KeyTail(priorities, a), KeyTail(priorities, b));
    StrLessConcat(xa, ya + ta, xb, yb + tb);
    StrLessConcat(ya, ta, yb, tb);
    TwoCharOrder(Flag(a.spec.preemptible), Flag(b.spec.preemptible));
    TwoCharOrder(Rank(a.status), Rank(b.status));
  }

  lemma TwoCharOrder(n: nat, m: nat)
    requires n < 10 && m < 10
    ensures StrLess([Digit(n)] + "_", [Digit(m)] + "_") <==> n < m
    ensures [Digit(n)] + "_" == [Digit(m)] + "_" <==> n == m
  {
    StrLessConcat([Digit(n)], "_", [Digit(m)], "_");
    assert ([Digit(n)] + "_")[0] == Digit(n) && ([Digit(m)] + "_")[0] == Digit(m);
  }

  /** Comparing the keys of two jobs as text is comparing them as promised. */
  predicate KeyPromised(priorities: Priorities, a: Job, b: Job) {
    StrLess(Key(priorities, a), Key(priorities, b)) <==> Before(priorities, a, b)
  }

  /** The range is exact. Take any interval of priorities around the default of 100: all keys with priorities from
      it order as promised if and only if it stays within 0..1000000. The width six of the format breaks one below, a
      second negative key number breaks one above. */
  lemma PriorityRangeExact(lo: int, hi: int)
    requires lo <= 100 <= hi
    ensures (forall priorities: Priorities, a: Job, b: Job | lo <= Recorded(priorities, a.id) <= hi && lo <= Recorded(priorities, b.id) <= hi ::
               KeyPromised(priorities, a, b)) <==> 0 <= lo && hi <= 1000000
  {
    if 0 <= lo && hi <= 1000000 {
      forall priorities: Priorities, a: Job, b: Job | lo <= Recorded(priorities, a.id) <= hi && lo <= Recorded(priorities, b.id) <= hi
        ensures KeyPromised(priorities, a, b)
      {
        KeyOrder(priorities, a, b);
      }
    } else if lo < 0 {
      var priorities, a, b := TwoJobs(100, -1);
      SevenDigits();
      KeySplit(priorities, a, b);
      assert !KeyPromised(priorities, a, b);
    } else {
      var priorities, a, b := TwoJobs(1000001, 1000000);
      TwoNegatives();
      KeySplit(priorities, a, b);
      StrLessConcat(Padded(-2), "_" + a.spec.time, Padded(-1), "_" + b.spec.time);
      assert !KeyPromised(priorities, a, b);
    }
  }

  /** Two jobs that differ in their priorities only. */
  lemma TwoJobs(p: int, q: int) returns (priorities: Priorities, a: Job, b: Job)
    ensures Recorded(priorities, a.id) == p && Recorded(priorities, b.id) == q && a.(id := b.id) == b
  {
    var spec := Spec("user", "vc", "gpu", 1, None, false, "");
    priorities, a, b := map["a" := p, "b" := q], Job("a", spec, Queued), Job("b", spec, Queued);
    assert priorities["a"] == p;
  }

  lemma SevenDigits()
    ensures |Padded(999899)| == 6 && Padded(999899)[0] == '9' && |Padded(1000000)| == 7 && Padded(1000000)[0] == '1'
  {
    MillionText();
    PaddedShape(999899);
    SixDigits();
    FixedHeadNine();
  }

  lemma TimesTen(n: nat)
    requires n > 0
    ensures Decimal(10 * n) == Decimal(n) + "0"
  {
    assert (10 * n) / 10 == n && (10 * n) % 10 == 0;
  }

  lemma MillionText()
    ensures Decimal(1000000) == "1000000"
  {
    TimesTen(1);
    TimesTen(10);
    TimesTen(100);
    TimesTen(1000);
    TimesTen(10000);
    TimesTen(100000);
  }

  lemma FixedHeadNine()
    ensures Padded(999899)[0] == '9'
  {
    SixDigits();
    ZeroFillStep(999899, 6);
    assert Fixed(999899, 6) == Fixed(9998, 4) + "9" + "9";
    assert Fixed(9998, 4) == Fixed(99, 2) + "9" + "8";
    assert Fixed(99, 2) == "99";
  }

  lemma TwoNegatives()
    ensures |Padded(-2)| == |Padded(-1)| == 6 && Padded(-2) != Padded(-1) && !StrLess(Padded(-2), Padded(-1))
  {
    SixDigits();
    FixedOrder(2, 1, 5);
    ZeroFillStep(2, 5);
    ZeroFillStep(1, 5);
    StrLessConcat("-", Fixed(2, 5), "-", Fixed(1, 5));
  }

  // ---- Sorting -------------------------------------------------------------------------------------

  predicate KeyLeq(priorities: Priorities, a: Job, b: Job) {
    !StrLess(Key(priorities, b), Key(priorities, a))
  }

  function KeyOrdering(priorities: Priorities): (Job, Job) -> bool {
    (a: Job, b: Job) => KeyLeq(priorities, a, b)
  }

  /** `jobsInfo.sort(key=...)`: a stable sort. */
  function SortByKey(priorities: Priorities, jobs: seq<Job>): seq<Job> {
    Sort(KeyOrdering(priorities), jobs)
  }

  lemma KeyOrderingTotal(priorities: Priorities)
    ensures TotalPreorder(KeyOrdering(priorities))
  {
    var leq := KeyOrdering(priorities);
    forall a, b ensures leq(a, b) || leq(b, a) {
      StrLessTotal(Key(priorities, a), Key(priorities, b));
    }
    forall a, b, c | leq(a, b) && leq(b, c) ensures leq(a, c) {
      StrLessTransitive(Key(priorities, a), Key(priorities, b), Key(priorities, c));
    }
  }

  /** In key order no preemptible job precedes a non-preemptible one, and among jobs of one kind
      no queued job precedes an active one. */
  lemma KeyGroups(priorities: Priorities, a: Job, b: Job)
    requires KeyLeq(priorities, a, b)
    ensures a.spec.preemptible ==> b.spec.preemptible
    ensures a.spec.preemptible == b.spec.preemptible && a.status == Queued ==> b.status == Queued
    ensures a.spec.preemptible == b.spec.preemptible && a.status == Scheduling ==> b.status == Scheduling || b.status == Queued
  {
    KeySplit(priorities, b, a);
  }
}

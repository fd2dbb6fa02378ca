/** One scheduling round: the ledgers it updates in place, its three loops, and the actions it issues
    (src/ClusterManager/job_manager.py, TakeJobActions). */
module Scheduler {
  import opened Jobs
  import opened Resources
  import opened Admission
  import opened StableSort
  import opened SortKey

  // ---- What a round decides ------------------------------------------------------------------------

  datatype Action =
    | Submit(id: JobId)                        // launcher.submit_job
    | Preempt(id: JobId)                       // launcher.kill_job(id, "queued")
    | Report(id: JobId, available: Counts)     // "waiting for available resource"

  function Considered(rows: seq<Job>): seq<Job> {
    if rows == [] then []
    else Considered(rows[..|rows| - 1]) + if IsConsidered(rows[|rows| - 1].status) then [rows[|rows| - 1]] else []
  }

  /** The jobs of a round in the order it treats them. */
  function RoundOrder(priorities: Priorities, rows: seq<Job>): seq<Job> {
    SortByKey(priorities, Considered(rows))
  }

  /** What the accepted jobs leave of a virtual cluster, and of one user's quota in it. */
  function VcLeft(env: Env, jobs: seq<Job>, accept: seq<bool>, vc: string): Counts
    requires |accept| == |jobs| && vc in env.vcs
  {
    map d | d in env.vcs[vc].total :: Schedulable(env.vcs[vc])[d] - Total(jobs, accept, VcPool(vc, d))
  }

  function UserLeft(env: Env, jobs: seq<Job>, accept: seq<bool>, user: string, vc: string): Counts
    requires |accept| == |jobs| && vc in env.vcs
  {
    map d | d in env.vcs[vc].total :: UserAllocable(env.vcs[vc])[d] - Total(jobs, accept, UserPool(user, vc, d))
  }

  /** The action for one job. A queued job of a missing virtual cluster raises inside the per-job try and gets none. */
  function ActionFor(env: Env, jobs: seq<Job>, accept: seq<bool>, i: nat): seq<Action>
    requires |accept| == |jobs| && i < |jobs|
  {
    var job := jobs[i];
    if job.status == Queued && accept[i] then [Submit(job.id)]
    else if job.spec.preemptible && IsActive(job.status) && !accept[i] then [Preempt(job.id)]
    else if job.status == Queued && job.spec.vc in env.vcs then
      [Report(job.id, Meet(UserLeft(env, jobs, accept, job.spec.user, job.spec.vc), VcLeft(env, jobs, accept, job.spec.vc)))]
    else []
  }

  function Actions(env: Env, jobs: seq<Job>, accept: seq<bool>, n: nat): seq<Action>
    requires |accept| == |jobs| && n <= |jobs|
  {
    if n == 0 then [] else Actions(env, jobs, accept, n - 1) + ActionFor(env, jobs, accept, n - 1)
  }

  /** Jobs whose virtual cluster is gone are marked in the table before anything is decided. */
  function Orphans(env: Env, jobs: seq<Job>): seq<(JobId, Status)> {
    if jobs == [] then []
    else
      var n := |jobs| - 1;
      Orphans(env, jobs[..n]) +
      if jobs[n].spec.vc in env.vcs then [] else [(jobs[n].id, if IsActive(jobs[n].status) then Killing else Killed)]
  }

  /** Charging the cluster-wide ledger fails on a device type the cluster does not list. */
  predicate MissingDevice(env: Env, jobs: seq<Job>, i: nat)
    requires i < |jobs|
  {
    FirstPass(env, jobs)[i] && Need(jobs[i].spec) > 0 && jobs[i].spec.device !in GlobalCounts(env)
  }

  predicate FirstPassFails(env: Env, jobs: seq<Job>) {
    exists i | 0 <= i < |jobs| :: MissingDevice(env, jobs, i)
  }

  /** The second loop looks a virtual cluster up without checking that it exists. */
  predicate SecondPassFails(env: Env, jobs: seq<Job>) {
    exists i | 0 <= i < |jobs| :: jobs[i].spec.preemptible && jobs[i].spec.vc !in env.vcs
  }

  /** How a round ends. A failed lookup, in the cluster's own ledger or in either pass, ends it before any action. */
  datatype Outcome = Aborted(marked: seq<(JobId, Status)>) | Decided(marked: seq<(JobId, Status)>, actions: seq<Action>)

  /** The outcomes a round may have: the marks of an aborted one stop where the failing lookup was. */
  ghost predicate IsOutcome(env: Env, jobs: seq<Job>, outcome: Outcome) {
    if !Covers(env.capacity, env.unschedulable) then outcome == Aborted([])
    else if FirstPassFails(env, jobs) then outcome.Aborted? && outcome.marked <= Orphans(env, jobs)
    else if SecondPassFails(env, jobs) then outcome == Aborted(Orphans(env, jobs))
    else
      var accept := TwoPass(env, jobs);
      outcome == Decided(Orphans(env, jobs), Actions(env, jobs, accept, |jobs|))
  }

  // ---- The ledgers ---------------------------------------------------------------------------------

  /** `VcSlot(vc)` is the original's vc_resources[vc], `UserSlot(user, vc)` its per-user copy of the quotas,
      `GlobalSlot` the cluster-wide ledger. */
  datatype Slot = VcSlot(vc: string) | UserSlot(user: string, vc: string) | GlobalSlot

  function Request(spec: Spec): Counts {
    map[spec.device := TotalGpu(spec)]
  }

  /** `view'` is `view` with the quotas of `user` copied, unless they were there already. */
  ghost predicate Opened(env: Env, user: string, users: set<string>, view: map<Slot, Counts>, view': map<Slot, Counts>) {
    && (user in users ==> view' == view)
    && (user !in users ==> forall vc | vc in env.vcs ::
          UserSlot(user, vc) in view' && view'[UserSlot(user, vc)] == UserAllocable(env.vcs[vc]))
    && (forall s | s in view && !(s.UserSlot? && s.user == user) :: s in view' && view'[s] == view[s])
  }

  /** The ledgers an admitted job is charged to. */
  predicate IsCharged(spec: Spec, s: Slot) {
    s == VcSlot(spec.vc) || (!spec.preemptible && (s == UserSlot(spec.user, spec.vc) || s == GlobalSlot))
  }

  /** `view'` is `view` with an admitted job's devices taken from its ledgers. */
  ghost predicate ChargedTo(spec: Spec, view: map<Slot, Counts>, view': map<Slot, Counts>) {
    forall s | s in view :: s in view' && view'[s] == if IsCharged(spec, s) then Minus(view[s], Request(spec)) else view[s]
  }

  function ChargeOne(view: map<Slot, Counts>, slot: Slot, spec: Spec): map<Slot, Counts>
    requires slot in view
  {
    view[slot := Minus(view[slot], Request(spec))]
  }

  lemma ChargedInTurn(spec: Spec, view: map<Slot, Counts>, view': map<Slot, Counts>)
    requires !spec.preemptible && VcSlot(spec.vc) in view && UserSlot(spec.user, spec.vc) in view && GlobalSlot in view
    requires view' == ChargeOne(ChargeOne(ChargeOne(view, VcSlot(spec.vc), spec), UserSlot(spec.user, spec.vc), spec), GlobalSlot, spec)
    ensures ChargedTo(spec, view, view')
  {
  }

  class Allocator {
    var ledgers: map<Slot, ResourceInfo>
    var users: set<string>   // whose quota copies exist
    ghost var view: map<Slot, Counts>
    ghost var Repr: set<object>

    ghost predicate Valid()
      reads this, Repr
    {
      && this in Repr
      && (forall s | s in ledgers :: ledgers[s] in Repr)
      && view.Keys == ledgers.Keys
      && (forall s | s in ledgers :: ledgers[s].counts == view[s])
      && (forall s, t | s in ledgers && t in ledgers && s != t :: ledgers[s] != ledgers[t])
    }

    constructor ()
      ensures Valid() && fresh(Repr) && view == map[] && users == {}
    {
      ledgers := map[];
      users := {};
      Repr := {this};
      view := map[];
    }

    method Open(slot: Slot, counts: Counts)
      requires Valid()
      modifies this`ledgers, this`view, this`Repr
      ensures Valid() && view == old(view)[slot := counts]
      ensures fresh(Repr - old(Repr)) && old(Repr) <= Repr
    {
      var r := new ResourceInfo(counts);
      ledgers := ledgers[slot := r];
      Repr := Repr + {r};
      view := view[slot := counts];
    }

    /** The first look at a user copies the quota of every virtual cluster for that user. */
    method OpenUser(env: Env, user: string)
      requires Valid()
      modifies this
      ensures Valid() && users == old(users) + {user} && Opened(env, user, old(users), old(view), view)
      ensures fresh(Repr - old(Repr)) && old(Repr) <= Repr
    {
      if user in users {
        return;
      }
      var todo := env.vcs.Keys;
      while todo != {}
        invariant todo <= env.vcs.Keys && Valid() && users == old(users)
        invariant forall vc | vc in env.vcs.Keys - todo ::
                    UserSlot(user, vc) in view && view[UserSlot(user, vc)] == UserAllocable(env.vcs[vc])
        invariant forall s | s in old(view) && !(s.UserSlot? && s.user == user) :: s in view && view[s] == old(view)[s]
        invariant fresh(Repr - old(Repr)) && old(Repr) <= Repr
      {
        var vc :| vc in todo;
        Open(UserSlot(user, vc), UserAllocable(env.vcs[vc]));
        todo := todo - {vc};
      }
      users := users + {user};
    }

    method CanSatisfy(slot: Slot, spec: Spec) returns (ok: bool)
      requires Valid() && slot in view
      ensures ok == Satisfies(view[slot], Request(spec))
    {
      var request := new ResourceInfo(Request(spec));
      ok := ledgers[slot].CanSatisfy(request);
    }

    method Subtract(slot: Slot, spec: Spec) returns (ok: bool)
      requires Valid() && slot in view
      modifies Repr
      ensures Valid() && Repr == old(Repr) && users == old(users)
      ensures ok == Covers(old(view)[slot], Request(spec))
      ensures ok ==> view == ChargeOne(old(view), slot, spec)
    {
      var request := new ResourceInfo(Request(spec));
      ok := ledgers[slot].Subtract(request);
      view := view[slot := ledgers[slot].counts];
    }

    /** Charges an admitted non-preemptible job to its virtual cluster, its user and the cluster. */
    method ChargeAll(spec: Spec) returns (charged: bool)
      requires Valid() && VcSlot(spec.vc) in view && UserSlot(spec.user, spec.vc) in view && GlobalSlot in view
      requires !spec.preemptible
      requires Satisfies(view[VcSlot(spec.vc)], Request(spec)) && Satisfies(view[UserSlot(spec.user, spec.vc)], Request(spec))
      modifies Repr
      ensures Valid() && Repr == old(Repr) && users == old(users)
      ensures charged == Covers(old(view)[GlobalSlot], Request(spec))
      ensures charged ==> ChargedTo(spec, old(view), view)
    {
      ghost var before := view;
      var done := Subtract(VcSlot(spec.vc), spec);
      done := Subtract(UserSlot(spec.user, spec.vc), spec);
      charged := Subtract(GlobalSlot, spec);
      if charged {
        ChargedInTurn(spec, before, view);
      }
    }

    method GetMinValue(slot: Slot, other: Slot) returns (counts: Counts)
      requires Valid() && slot in view && other in view && slot != other
      modifies Repr
      ensures Valid() && Repr == old(Repr) && users == old(users)
      ensures view == old(view)[slot := Meet(old(view)[slot], old(view)[other])] && counts == view[slot]
    {
      ledgers[slot].GetMinValue(ledgers[other]);
      counts := ledgers[slot].counts;
      view := view[slot := counts];
    }
  }

  // ---- The ledgers always show what the accepted jobs have left ------------------------------------

  ghost predicate VcBooks(env: Env, jobs: seq<Job>, accept: seq<bool>, view: map<Slot, Counts>)
    requires |accept| == |jobs|
  {
    forall vc | vc in env.vcs :: VcSlot(vc) in view && view[VcSlot(vc)] == VcLeft(env, jobs, accept, vc)
  }

  /** Users nobody looked at yet have no ledger and nothing charged. */
  ghost predicate UserBooks(env: Env, jobs: seq<Job>, accept: seq<bool>, users: set<string>, view: map<Slot, Counts>)
    requires |accept| == |jobs|
  {
    forall u, vc | vc in env.vcs ::
      if u in users then UserSlot(u, vc) in view && view[UserSlot(u, vc)] == UserLeft(env, jobs, accept, u, vc)
      else UserLeft(env, jobs, accept, u, vc) == UserAllocable(env.vcs[vc])
  }

  ghost predicate Books(env: Env, jobs: seq<Job>, accept: seq<bool>, users: set<string>, view: map<Slot, Counts>)
    requires |accept| == |jobs|
  {
    && VcBooks(env, jobs, accept, view) && UserBooks(env, jobs, accept, users, view)
    && GlobalSlot in view && view[GlobalSlot].Keys == GlobalCounts(env).Keys
  }

  lemma {:induction false} NothingAccepted(jobs: seq<Job>, accept: seq<bool>, pool: Pool)
    requires |accept| == |jobs| && forall i | 0 <= i < |jobs| :: !accept[i]
    ensures Total(jobs, accept, pool) == 0
  {
    if jobs == [] {
    } else {
      NothingAccepted(jobs[..|jobs| - 1], accept[..|jobs| - 1], pool);
    }
  }

  lemma OpeningBooks(env: Env, jobs: seq<Job>, accept: seq<bool>, view: map<Slot, Counts>)
    requires |accept| == |jobs| && forall i | 0 <= i < |jobs| :: !accept[i]
    requires forall vc | vc in env.vcs :: VcSlot(vc) in view && view[VcSlot(vc)] == Schedulable(env.vcs[vc])
    requires GlobalSlot in view && view[GlobalSlot] == GlobalCounts(env)
    ensures Books(env, jobs, accept, {}, view)
  {
    forall pool ensures Total(jobs, accept, pool) == 0 { NothingAccepted(jobs, accept, pool); }
  }

  /** The ledger's own test is the test of the pool. */
  lemma SatisfiesIsRoom(env: Env, jobs: seq<Job>, accept: seq<bool>, spec: Spec)
    requires |accept| == |jobs| && spec.vc in env.vcs
    ensures Satisfies(VcLeft(env, jobs, accept, spec.vc), Request(spec)) <==>
            HasRoom(env, jobs, accept, spec, VcPool(spec.vc, spec.device))
    ensures !spec.preemptible ==>
              (Satisfies(UserLeft(env, jobs, accept, spec.user, spec.vc), Request(spec)) <==>
               HasRoom(env, jobs, accept, spec, UserPool(spec.user, spec.vc, spec.device)))
  {
    assert Request(spec)[spec.device] == TotalGpu(spec);
  }

  /** Charging an admitted job to its ledgers keeps the books. */
  lemma ChargedVc(env: Env, jobs: seq<Job>, accept: seq<bool>, k: nat, vc: string)
    requires |accept| == |jobs| && k < |jobs| && !accept[k] && Admit(env, jobs, accept, jobs[k].spec) && vc in env.vcs
    ensures VcLeft(env, jobs, accept[k := true], vc) ==
            if vc == jobs[k].spec.vc then Minus(VcLeft(env, jobs, accept, vc), Request(jobs[k].spec))
            else VcLeft(env, jobs, accept, vc)
  {
    var spec, now := jobs[k].spec, VcLeft(env, jobs, accept, vc);
    forall d | d in env.vcs[vc].total
      ensures VcLeft(env, jobs, accept[k := true], vc)[d] == (if vc == spec.vc then Minus(now, Request(spec)) else now)[d]
    {
      TotalUpdate(jobs, accept, k, VcPool(vc, d));
    }
  }

  lemma ChargedUser(env: Env, jobs: seq<Job>, accept: seq<bool>, k: nat, user: string, vc: string)
    requires |accept| == |jobs| && k < |jobs| && !accept[k] && vc in env.vcs
    ensures UserLeft(env, jobs, accept[k := true], user, vc) ==
            if user == jobs[k].spec.user && vc == jobs[k].spec.vc && !jobs[k].spec.preemptible
            then Minus(UserLeft(env, jobs, accept, user, vc), Request(jobs[k].spec))
            else UserLeft(env, jobs, accept, user, vc)
  {
    var spec, now := jobs[k].spec, UserLeft(env, jobs, accept, user, vc);
    var mine := user == spec.user && vc == spec.vc && !spec.preemptible;
    forall d | d in env.vcs[vc].total
      ensures UserLeft(env, jobs, accept[k := true], user, vc)[d] == (if mine then Minus(now, Request(spec)) else now)[d]
    {
      TotalUpdate(jobs, accept, k, UserPool(user, vc, d));
    }
  }

  lemma BooksAfterVcCharge(env: Env, jobs: seq<Job>, accept: seq<bool>, k: nat, view: map<Slot, Counts>, view': map<Slot, Counts>)
    requires |accept| == |jobs| && k < |jobs| && !accept[k] && Admit(env, jobs, accept, jobs[k].spec)
    requires VcBooks(env, jobs, accept, view)
    requires ChargedTo(jobs[k].spec, view, view')
    ensures VcBooks(env, jobs, accept[k := true], view')
  {
    forall vc | vc in env.vcs
      ensures view'[VcSlot(vc)] == VcLeft(env, jobs, accept[k := true], vc)
    {
      ChargedVc(env, jobs, accept, k, vc);
      assert VcSlot(vc) in view;
    }
  }

  lemma BooksAfterUserCharge(env: Env, jobs: seq<Job>, accept: seq<bool>, k: nat, users: set<string>,
                             view: map<Slot, Counts>, view': map<Slot, Counts>)
    requires |accept| == |jobs| && k < |jobs| && !accept[k] && Admit(env, jobs, accept, jobs[k].spec)
    requires UserBooks(env, jobs, accept, users, view)
    requires jobs[k].spec.preemptible || jobs[k].spec.user in users
    requires ChargedTo(jobs[k].spec, view, view')
    ensures UserBooks(env, jobs, accept[k := true], users, view')
  {
    forall u, vc | vc in env.vcs
      ensures if u in users then UserSlot(u, vc) in view' && view'[UserSlot(u, vc)] == UserLeft(env, jobs, accept[k := true], u, vc)
              else UserLeft(env, jobs, accept[k := true], u, vc) == UserAllocable(env.vcs[vc])
    {
      if u in users {
        UserLedgerAfter(env, jobs, accept, k, u, vc, view, view');
      } else {
        ChargedUser(env, jobs, accept, k, u, vc);
      }
    }
  }

  lemma UserLedgerAfter(env: Env, jobs: seq<Job>, accept: seq<bool>, k: nat, user: string, vc: string,
                        view: map<Slot, Counts>, view': map<Slot, Counts>)
    requires |accept| == |jobs| && k < |jobs| && !accept[k] && vc in env.vcs && ChargedTo(jobs[k].spec, view, view')
    requires UserSlot(user, vc) in view && view[UserSlot(user, vc)] == UserLeft(env, jobs, accept, user, vc)
    ensures UserSlot(user, vc) in view' && view'[UserSlot(user, vc)] == UserLeft(env, jobs, accept[k := true], user, vc)
  {
    ChargedUser(env, jobs, accept, k, user, vc);
  }

  /** Opening a user changes no balance. */
  lemma BooksAfterOpening(env: Env, jobs: seq<Job>, accept: seq<bool>, user: string, users: set<string>,
                          view: map<Slot, Counts>, view': map<Slot, Counts>)
    requires |accept| == |jobs| && Books(env, jobs, accept, users, view) && Opened(env, user, users, view, view')
    ensures Books(env, jobs, accept, users + {user}, view')
  {
    forall u, vc | vc in env.vcs
      ensures if u in users + {user} then UserSlot(u, vc) in view' && view'[UserSlot(u, vc)] == UserLeft(env, jobs, accept, u, vc)
              else UserLeft(env, jobs, accept, u, vc) == UserAllocable(env.vcs[vc])
    {
      if u in users { assert UserSlot(u, vc) in view; }
    }
  }

  /** The ledgers answer as Admit does. */
  lemma BooksAnswer(env: Env, jobs: seq<Job>, accept: seq<bool>, k: nat, users: set<string>, view: map<Slot, Counts>)
    requires |accept| == |jobs| && k < |jobs| && Books(env, jobs, accept, users, view)
    requires jobs[k].spec.vc in env.vcs && jobs[k].spec.user in users
    ensures var spec := jobs[k].spec;
            var (vcView, userView) := (view[VcSlot(spec.vc)], view[UserSlot(spec.user, spec.vc)]);
            Admit(env, jobs, accept, spec) ==
            (Satisfies(vcView, Request(spec)) && (spec.preemptible || Satisfies(userView, Request(spec))))
  {
    SatisfiesIsRoom(env, jobs, accept, jobs[k].spec);
  }

  /** Charging an admitted job keeps the books. */
  lemma BooksAfterAdmission(env: Env, jobs: seq<Job>, accept: seq<bool>, k: nat, users: set<string>,
                            view: map<Slot, Counts>, view': map<Slot, Counts>)
    requires |accept| == |jobs| && k < |jobs| && !accept[k] && Books(env, jobs, accept, users, view)
    requires jobs[k].spec.user in users && Admit(env, jobs, accept, jobs[k].spec)
    requires ChargedTo(jobs[k].spec, view, view')
    ensures Books(env, jobs, accept[k := true], users, view')
  {
    BooksAfterVcCharge(env, jobs, accept, k, view, view');
    BooksAfterUserCharge(env, jobs, accept, k, users, view, view');
    assert GlobalSlot in view;
  }

  // ---- The three loops -----------------------------------------------------------------------------

  /** The body of the first loop for a job whose virtual cluster exists. */
  method FirstStep(env: Env, jobs: seq<Job>, allowed: seq<bool>, n: nat, books: Allocator) returns (now: seq<bool>, failed: bool)
    requires |allowed| == |jobs| && n < |jobs| && !allowed[n] && jobs[n].spec.vc in env.vcs
    requires books.Valid() && Books(env, jobs, allowed, books.users, books.view)
    modifies books.Repr
    ensures forall o | o in books.Repr :: o in old(books.Repr) || fresh(o)
    ensures books.Valid() && books.users == old(books.users) + {jobs[n].spec.user}
    ensures var admitted := !jobs[n].spec.preemptible && Admit(env, jobs, allowed, jobs[n].spec);
            && now == (if admitted then allowed[n := true] else allowed)
            && failed == (admitted && !Covers(GlobalCounts(env), Request(jobs[n].spec)))
    ensures !failed ==> Books(env, jobs, now, books.users, books.view)
  {
    var spec := jobs[n].spec;
    ghost var users, view := books.users, books.view;
    books.OpenUser(env, spec.user);
    BooksAfterOpening(env, jobs, allowed, spec.user, users, view, books.view);
    BooksAnswer(env, jobs, allowed, n, books.users, books.view);
    ghost var copied := books.view;
    var vcOk := books.CanSatisfy(VcSlot(spec.vc), spec);
    var userOk := books.CanSatisfy(UserSlot(spec.user, spec.vc), spec);
    if !spec.preemptible && vcOk && userOk {
      var charged := books.ChargeAll(spec);
      if charged {
        BooksAfterAdmission(env, jobs, allowed, n, books.users, copied, books.view);
      }
      return allowed[n := true], !charged;
    }
    return allowed, false;
  }

  /** What the first loop has established after `n` jobs. */
  ghost predicate FirstDone(env: Env, jobs: seq<Job>, allowed: seq<bool>, users: set<string>, n: nat) {
    && |allowed| == |jobs| && n <= |jobs| && allowed[..n] == FirstPass(env, jobs[..n])
    && (forall i | n <= i < |jobs| :: !allowed[i])
    && (forall i | 0 <= i < n :: allowed[i] ==> Covers(GlobalCounts(env), Request(jobs[i].spec)))
    && (forall i | 0 <= i < n :: jobs[i].spec.vc in env.vcs ==> jobs[i].spec.user in users)
  }

  lemma {:induction false} FirstDoneStep(env: Env, jobs: seq<Job>, allowed: seq<bool>, users: set<string>, n: nat, users': set<string>)
    requires n < |jobs| && FirstDone(env, jobs, allowed, users, n)
    requires users <= users' && (jobs[n].spec.vc in env.vcs ==> jobs[n].spec.user in users')
    ensures var admitted := !jobs[n].spec.preemptible && Admit(env, jobs, allowed, jobs[n].spec);
            && FirstPass(env, jobs)[n] == admitted
            && ((admitted ==> Covers(GlobalCounts(env), Request(jobs[n].spec))) ==>
                  FirstDone(env, jobs, if admitted then allowed[n := true] else allowed, users', n + 1))
  {
    FirstPassNext(env, jobs, allowed, n);
    var now := if FirstPass(env, jobs)[n] then allowed[n := true] else allowed;
    assert now[..n + 1] == allowed[..n] + [now[n]];
  }

  lemma {:induction false} FirstPassNext(env: Env, jobs: seq<Job>, allowed: seq<bool>, n: nat)
    requires |allowed| == |jobs| && n < |jobs| && allowed[..n] == FirstPass(env, jobs[..n])
    requires forall i | n <= i < |jobs| :: !allowed[i]
    ensures var admitted := !jobs[n].spec.preemptible && Admit(env, jobs, allowed, jobs[n].spec);
            FirstPass(env, jobs)[n] == admitted && FirstPass(env, jobs[..n + 1]) == allowed[..n] + [admitted]
  {
    AdmitPrefix(env, jobs, allowed, n, jobs[n].spec);
    FirstPassAt(env, jobs, n);
    assert jobs[..n + 1][..n] == jobs[..n];
  }

  lemma FirstDoneAll(env: Env, jobs: seq<Job>, allowed: seq<bool>, users: set<string>)
    requires FirstDone(env, jobs, allowed, users, |jobs|)
    ensures allowed == FirstPass(env, jobs) && !FirstPassFails(env, jobs)
  {
    assert jobs[..|jobs|] == jobs && allowed[..|jobs|] == allowed;
    forall i | 0 <= i < |jobs| ensures !MissingDevice(env, jobs, i) {
      assert Request(jobs[i].spec)[jobs[i].spec.device] == TotalGpu(jobs[i].spec);
    }
  }

  /** One job of the first loop, with what is thereby established of the pass. */
  method FirstVisit(env: Env, jobs: seq<Job>, allowed: seq<bool>, n: nat, books: Allocator) returns (now: seq<bool>, failed: bool)
    requires n < |jobs| && FirstDone(env, jobs, allowed, books.users, n) && jobs[n].spec.vc in env.vcs
    requires books.Valid() && Books(env, jobs, allowed, books.users, books.view)
    modifies books.Repr
    ensures forall o | o in books.Repr :: o in old(books.Repr) || fresh(o)
    ensures failed ==> FirstPassFails(env, jobs)
    ensures !failed ==> FirstDone(env, jobs, now, books.users, n + 1)
    ensures !failed ==> books.Valid() && Books(env, jobs, now, books.users, books.view)
  {
    ghost var users := books.users;
    now, failed := FirstStep(env, jobs, allowed, n, books);
    FirstDoneStep(env, jobs, allowed, users, n, books.users);
    if failed {
      assert MissingDevice(env, jobs, n);
    }
  }

  /** First loop: marks orphans and admits non-preemptible jobs; `failed` is a missing device type. */
  method FirstLoop(env: Env, jobs: seq<Job>, books: Allocator)
    returns (allowed: seq<bool>, marked: seq<(JobId, Status)>, failed: bool)
    requires OpenBooks(env, books)
    modifies books.Repr
    ensures forall o | o in books.Repr :: o in old(books.Repr) || fresh(o)
    ensures failed == FirstPassFails(env, jobs)
    ensures failed ==> marked <= Orphans(env, jobs)
    ensures !failed ==> marked == Orphans(env, jobs) && allowed == FirstPass(env, jobs)
    ensures !failed ==> books.Valid() && Books(env, jobs, allowed, books.users, books.view)
    ensures !failed ==> forall i | 0 <= i < |jobs| :: jobs[i].spec.vc in env.vcs ==> jobs[i].spec.user in books.users
  {
    allowed := seq(|jobs|, _ => false);
    marked := [];
    OpeningBooks(env, jobs, allowed, books.view);
    for n := 0 to |jobs|
      invariant books.Valid() && forall o | o in books.Repr :: o in old(books.Repr) || fresh(o)
      invariant FirstDone(env, jobs, allowed, books.users, n)
      invariant marked == Orphans(env, jobs[..n])
      invariant Books(env, jobs, allowed, books.users, books.view)
    {
      OrphansStep(env, jobs, n);
      if jobs[n].spec.vc !in env.vcs {
        marked := marked + [(jobs[n].id, if IsActive(jobs[n].status) then Killing else Killed)];
        FirstDoneStep(env, jobs, allowed, books.users, n, books.users);
      } else {
        allowed, failed := FirstVisit(env, jobs, allowed, n, books);
        if failed {
          return;
        }
      }
    }
    FirstDoneAll(env, jobs, allowed, books.users);
    assert jobs[..|jobs|] == jobs;
    failed := false;
  }

  lemma {:induction false} OrphansStep(env: Env, jobs: seq<Job>, n: nat)
    requires n < |jobs|
    ensures Orphans(env, jobs[..n + 1]) == Orphans(env, jobs[..n]) +
            if jobs[n].spec.vc in env.vcs then [] else [(jobs[n].id, if IsActive(jobs[n].status) then Killing else Killed)]
    ensures Orphans(env, jobs[..n]) <= Orphans(env, jobs)
    decreases |jobs| - n
  {
    assert jobs[..n + 1][..n] == jobs[..n];
    if n + 1 < |jobs| {
      OrphansStep(env, jobs, n + 1);
    } else {
      assert jobs[..n + 1] == jobs;
    }
  }

  /** The body of the second loop for a preemptible job whose virtual cluster exists. */
  method SecondStep(env: Env, jobs: seq<Job>, allowed: seq<bool>, n: nat, books: Allocator) returns (now: seq<bool>)
    requires |allowed| == |jobs| && n < |jobs| && !allowed[n] && jobs[n].spec.preemptible && jobs[n].spec.vc in env.vcs
    requires books.Valid() && Books(env, jobs, allowed, books.users, books.view) && jobs[n].spec.user in books.users
    modifies books.Repr
    ensures books.Valid() && books.Repr == old(books.Repr) && books.users == old(books.users)
    ensures now == if Admit(env, jobs, allowed, jobs[n].spec) then allowed[n := true] else allowed
    ensures Books(env, jobs, now, books.users, books.view)
  {
    var spec := jobs[n].spec;
    BooksAnswer(env, jobs, allowed, n, books.users, books.view);
    now := allowed;
    var vcOk := books.CanSatisfy(VcSlot(spec.vc), spec);
    if vcOk {
      ghost var view := books.view;
      var done := books.Subtract(VcSlot(spec.vc), spec);
      BooksAfterAdmission(env, jobs, allowed, n, books.users, view, books.view);
      now := allowed[n := true];
    }
  }

  /** Second loop: admits preemptible jobs; `failed` is a missing virtual cluster. */
  method SecondLoop(env: Env, jobs: seq<Job>, first: seq<bool>, books: Allocator) returns (allowed: seq<bool>, failed: bool)
    requires first == FirstPass(env, jobs) && books.Valid() && Books(env, jobs, first, books.users, books.view)
    requires forall i | 0 <= i < |jobs| :: jobs[i].spec.vc in env.vcs ==> jobs[i].spec.user in books.users
    modifies books.Repr
    ensures failed == SecondPassFails(env, jobs)
    ensures books.Repr == old(books.Repr) && books.users == old(books.users)
    ensures !failed ==> allowed == TwoPass(env, jobs) && books.Valid() && Books(env, jobs, allowed, books.users, books.view)
  {
    allowed := first;
    for n := 0 to |jobs|
      invariant books.Valid() && books.Repr == old(books.Repr) && books.users == old(books.users)
      invariant allowed == SecondPass(env, jobs, first, n)
      invariant Books(env, jobs, allowed, books.users, books.view)
      invariant forall i | 0 <= i < n :: jobs[i].spec.preemptible ==> jobs[i].spec.vc in env.vcs
    {
      assert allowed[n] == allowed[n..][0] == first[n..][0];
      if jobs[n].spec.preemptible && !allowed[n] {
        if jobs[n].spec.vc !in env.vcs {
          return allowed, true;
        }
        allowed := SecondStep(env, jobs, allowed, n, books);
      }
    }
    failed := false;
  }

  /** The quota ledger as the third loop leaves it: untouched, or overwritten by its minimum with the cluster's. */
  ghost predicate ReportBooks(env: Env, jobs: seq<Job>, accept: seq<bool>, users: set<string>, view: map<Slot, Counts>)
    requires |accept| == |jobs|
  {
    forall u, vc | u in users && vc in env.vcs ::
      UserSlot(u, vc) in view &&
      (view[UserSlot(u, vc)] == UserLeft(env, jobs, accept, u, vc) ||
       view[UserSlot(u, vc)] == Meet(UserLeft(env, jobs, accept, u, vc), VcLeft(env, jobs, accept, vc)))
  }

  lemma ReportStep(env: Env, jobs: seq<Job>, accept: seq<bool>, users: set<string>, view: map<Slot, Counts>, user: string, vc: string)
    requires |accept| == |jobs| && user in users && vc in env.vcs
    requires VcBooks(env, jobs, accept, view) && ReportBooks(env, jobs, accept, users, view)
    ensures var shown := Meet(view[UserSlot(user, vc)], view[VcSlot(vc)]);
            && shown == Meet(UserLeft(env, jobs, accept, user, vc), VcLeft(env, jobs, accept, vc))
            && VcBooks(env, jobs, accept, view[UserSlot(user, vc) := shown])
            && ReportBooks(env, jobs, accept, users, view[UserSlot(user, vc) := shown])
  {
    MeetTwice(UserLeft(env, jobs, accept, user, vc), VcLeft(env, jobs, accept, vc));
  }

  /** Third loop: turns the decisions into actions. What waiting jobs are told does not depend on how many
      earlier reports already overwrote the same quota ledger. */
  method ThirdLoop(env: Env, jobs: seq<Job>, allowed: seq<bool>, books: Allocator) returns (actions: seq<Action>)
    requires |allowed| == |jobs|
    requires books.Valid() && Books(env, jobs, allowed, books.users, books.view)
    requires forall i | 0 <= i < |jobs| :: jobs[i].spec.vc in env.vcs ==> jobs[i].spec.user in books.users
    modifies books.Repr
    ensures actions == Actions(env, jobs, allowed, |jobs|)
  {
    actions := [];
    for n := 0 to |jobs|
      invariant books.Valid() && VcBooks(env, jobs, allowed, books.view)
      invariant books.Repr == old(books.Repr) && books.users == old(books.users)
      invariant ReportBooks(env, jobs, allowed, books.users, books.view)
      invariant actions == Actions(env, jobs, allowed, n)
    {
      var job := jobs[n];
      if job.status == Queued && allowed[n] {
        actions := actions + [Submit(job.id)];
      } else if job.spec.preemptible && IsActive(job.status) && !allowed[n] {
        actions := actions + [Preempt(job.id)];
      } else if job.status == Queued && job.spec.vc in env.vcs {
        ReportStep(env, jobs, allowed, books.users, books.view, job.spec.user, job.spec.vc);
        var available := books.GetMinValue(UserSlot(job.spec.user, job.spec.vc), VcSlot(job.spec.vc));
        actions := actions + [Report(job.id, available)];
      }
    }
  }

  /** The ledgers before the first loop; `failed` is an unschedulable device type that the cluster does not list. */
  method OpenAll(env: Env) returns (books: Allocator, failed: bool)
    ensures failed == !Covers(env.capacity, env.unschedulable)
    ensures failed || OpenBooks(env, books)
    ensures fresh(books) && fresh(books.Repr)
  {
    books := new Allocator();
    var total := new ResourceInfo(env.capacity);
    var unschedulable := new ResourceInfo(env.unschedulable);
    var left, ok := ResourceInfo.Difference(total, unschedulable);
    failed := !ok;
    if ok {
      OpenLedgers(env, left.counts, books);
    }
  }

  ghost predicate OpenBooks(env: Env, books: Allocator)
    reads books, books.Repr
  {
    && books.Valid() && books.users == {} && GlobalSlot in books.view && books.view[GlobalSlot] == GlobalCounts(env)
    && forall vc | vc in env.vcs :: VcSlot(vc) in books.view && books.view[VcSlot(vc)] == Schedulable(env.vcs[vc])
  }

  method OpenLedgers(env: Env, global: Counts, books: Allocator)
    requires books.Valid() && books.users == {} && global == GlobalCounts(env)
    modifies books
    ensures OpenBooks(env, books) && forall o | o in books.Repr :: o in old(books.Repr) || fresh(o)
  {
    var todo := env.vcs.Keys;
    books.Open(GlobalSlot, global);
    while todo != {}
      invariant todo <= env.vcs.Keys && books.Valid() && books.users == {}
      invariant forall o | o in books.Repr :: o in old(books.Repr) || fresh(o)
      invariant GlobalSlot in books.view && books.view[GlobalSlot] == GlobalCounts(env)
      invariant forall vc | vc in env.vcs.Keys - todo :: VcSlot(vc) in books.view && books.view[VcSlot(vc)] == Schedulable(env.vcs[vc])
    {
      var vc :| vc in todo;
      books.Open(VcSlot(vc), Schedulable(env.vcs[vc]));
      todo := todo - {vc};
    }
  }

  method TakeJobActions(env: Env, priorities: Priorities, rows: seq<Job>) returns (outcome: Outcome)
    ensures IsOutcome(env, RoundOrder(priorities, rows), outcome)
  {
    var jobs := RoundOrder(priorities, rows);
    var books, failed := OpenAll(env);
    if failed {
      return Aborted([]);
    }
    var first, marked;
    first, marked, failed := FirstLoop(env, jobs, books);
    if failed {
      return Aborted(marked);
    }
    var allowed;
    allowed, failed := SecondLoop(env, jobs, first, books);
    if failed {
      return Aborted(marked);
    }
    var actions := ThirdLoop(env, jobs, allowed, books);
    outcome := Decided(marked, actions);
  }

  /** The sort puts preemptible jobs last, so that a round decides as the single greedy pass over its order. */
  lemma RoundIsGreedy(env: Env, priorities: Priorities, rows: seq<Job>)
    ensures TwoPass(env, RoundOrder(priorities, rows)) == Greedy(env, RoundOrder(priorities, rows))
  {
    var jobs := RoundOrder(priorities, rows);
    KeyOrderingTotal(priorities);
    SortSorts(KeyOrdering(priorities), Considered(rows));
    forall i, j | 0 <= i < j < |jobs| && jobs[i].spec.preemptible ensures jobs[j].spec.preemptible {
      assert KeyOrdering(priorities)(jobs[i], jobs[j]);
      KeyGroups(priorities, jobs[i], jobs[j]);
    }
    TwoPassIsGreedy(env, jobs);
  }

  /** A round treats jobs in the order its comments promise, as long as priorities stay within 0..1000000. */
  lemma RoundOrderPromised(priorities: Priorities, rows: seq<Job>, i: nat, j: nat)
    requires forall row | row in rows :: PriorityInRange(Recorded(priorities, row.id))
    requires i < j < |RoundOrder(priorities, rows)|
    ensures !Before(priorities, RoundOrder(priorities, rows)[j], RoundOrder(priorities, rows)[i])
  {
    var jobs := RoundOrder(priorities, rows);
    KeyOrderingTotal(priorities);
    SortSorts(KeyOrdering(priorities), Considered(rows));
    SortMembers(KeyOrdering(priorities), Considered(rows));
    assert KeyOrdering(priorities)(jobs[i], jobs[j]);
    ConsideredAreRows(rows);
    assert jobs[i] in jobs && jobs[j] in jobs;
    KeyOrder(priorities, jobs[j], jobs[i]);
  }

  lemma {:induction false} ConsideredAreRows(rows: seq<Job>)
    ensures forall job | job in Considered(rows) :: job in rows
  {
    if rows == [] {
    } else {
      ConsideredAreRows(rows[..|rows| - 1]);
    }
  }

  /** One more job in the table enters the order at one place, and every job treated before it is decided as
      without it. */
  lemma NewJobKeepsEarlier(env: Env, priorities: Priorities, rows: seq<Job>, job: Job) returns (p: nat)
    requires IsConsidered(job.status)
    ensures p <= |RoundOrder(priorities, rows)|
    ensures var jobs := RoundOrder(priorities, rows);
            && RoundOrder(priorities, rows + [job]) == jobs[..p] + [job] + jobs[p..]
            && TwoPass(env, RoundOrder(priorities, rows + [job]))[..p] == TwoPass(env, jobs)[..p]
  {
    p := NewJobPlace(priorities, rows, job);
    var jobs, more := RoundOrder(priorities, rows), RoundOrder(priorities, rows + [job]);
    SplitPrefix(jobs, p, job);
    RoundIsGreedy(env, priorities, rows);
    RoundIsGreedy(env, priorities, rows + [job]);
    LaterJobsDoNotMatter(env, more, jobs, p);
  }

  lemma NewJobPlace(priorities: Priorities, rows: seq<Job>, job: Job) returns (p: nat)
    requires IsConsidered(job.status)
    ensures p <= |RoundOrder(priorities, rows)|
    ensures var jobs := RoundOrder(priorities, rows);
            RoundOrder(priorities, rows + [job]) == jobs[..p] + [job] + jobs[p..]
  {
    var leq, considered := KeyOrdering(priorities), Considered(rows);
    assert (rows + [job])[..|rows|] == rows;
    assert (considered + [job])[..|considered|] == considered;
    KeyOrderingTotal(priorities);
    SortSorts(leq, considered);
    p := InsertSplits(leq, RoundOrder(priorities, rows), job);
  }

  lemma SplitPrefix<T>(s: seq<T>, p: nat, x: T)
    requires p <= |s|
    ensures (s[..p] + [x] + s[p..])[..p] == s[..p]
  {
  }
}

/** Watching submitted jobs: the status of a job from its roles, and what one poll of it does
    (src/ClusterManager/job_manager.py, check_job_status and UpdateJobStatus). */
module JobPolls {
  import opened Jobs

  datatype PodStatus = PodNotFound | PodPending | PodRunning | PodSucceeded | PodFailed | PodUnknown | PodRestart

  datatype Role = Role(name: string, status: PodStatus)

  // ---- One status for all roles --------------------------------------------------------------------

  predicate HasStatus(roles: seq<Role>, status: PodStatus) {
    exists i | 0 <= i < |roles| :: roles[i].status == status
  }

  /** A master or parameter server succeeded, or there are workers and all of them did. */
  predicate Completed(roles: seq<Role>) {
    || (exists i | 0 <= i < |roles| :: roles[i].name in {"master", "ps"} && roles[i].status == PodSucceeded)
    || ((exists i | 0 <= i < |roles| :: roles[i].name == "worker") &&
        (forall i | 0 <= i < |roles| && roles[i].name == "worker" :: roles[i].status == PodSucceeded))
  }

  /** The worst status wins, except that completion hides everything else. */
  predicate IsJobStatus(roles: seq<Role>, status: PodStatus) {
    if roles == [] then status == PodNotFound
    else if Completed(roles) then status == PodSucceeded
    else if HasStatus(roles, PodFailed) then status == PodFailed
    else if HasStatus(roles, PodUnknown) then status == PodUnknown
    else if HasStatus(roles, PodNotFound) then status == PodNotFound
    else if HasStatus(roles, PodPending) then status == PodPending
    else if HasStatus(roles, PodRestart) then status == PodRestart
    else status == PodRunning
  }

  method CheckJobStatus(roles: seq<Role>) returns (status: PodStatus)
    ensures IsJobStatus(roles, status)
    ensures status == PodRunning ==>
              forall i | 0 <= i < |roles| :: roles[i].status == PodRunning ||
                                             (roles[i].status == PodSucceeded && roles[i].name !in {"master", "ps"})
  {
    if |roles| < 1 {
      return PodNotFound;
    }
    for i := 0 to |roles|
      invariant forall k | 0 <= k < i :: !(roles[k].name in {"master", "ps"} && roles[k].status == PodSucceeded)
    {
      if roles[i].name !in {"master", "ps"} {
        continue;
      }
      if roles[i].status == PodSucceeded {
        return PodSucceeded;
      }
    }
    var workers, done := 0, true;
    for i := 0 to |roles|
      invariant workers > 0 <==> exists k | 0 <= k < i :: roles[k].name == "worker"
      invariant done <==> forall k | 0 <= k < i && roles[k].name == "worker" :: roles[k].status == PodSucceeded
    {
      if roles[i].name == "worker" {
        workers := workers + 1;
        done := done && roles[i].status == PodSucceeded;
      }
    }
    if workers > 0 && done {
      return PodSucceeded;
    }
    status := PodRunning;
    if HasStatus(roles, PodFailed) {
      status := PodFailed;
    } else if HasStatus(roles, PodUnknown) {
      status := PodUnknown;
    } else if HasStatus(roles, PodNotFound) {
      status := PodNotFound;
    } else if HasStatus(roles, PodPending) {
      status := PodPending;
    } else if HasStatus(roles, PodRestart) {
      status := PodRestart;
    }
  }

  // ---- One poll ------------------------------------------------------------------------------------

  /** How far a poll gets before an exception ends it. Every branch has at most two effects in turn (status before
      kill, counter before status, dictionary before kill); dropping the dictionary entry comes last. */
  datatype Reach =
    | Nothing      // raises before any effect
    | One          // raises after the first effect of its branch
    | Both         // raises after both, before the dictionary entry is dropped
    | Everything   // raises nowhere, or after its last statement

  /** What a poll of one job sees: the combined status, the clock in microseconds, whether the job ran longer
      than allowed, whether an image pull backed off, how often its retry counter was raised elsewhere
      (by failed submissions) since the last poll, and how far it gets. */
  datatype Observation = Observation(id: JobId, result: PodStatus, now: int, overtime: bool, pullBackOff: bool,
                                     otherRetries: nat, reach: Reach)
  {
    predicate First() { reach != Nothing }
    predicate Second() { reach == Both || reach == Everything }
    predicate Raises() { reach != Everything }
    predicate Unusual() { result == PodUnknown || result == PodNotFound }
  }

  /** The process's UnusualJobs dictionary and the stored retry counters. */
  datatype Memory = Memory(unusual: map<JobId, int>, retries: map<JobId, nat>)

  /** The status a poll writes, and the state it asks the launcher to kill the job into. */
  datatype Effect = Effect(status: Option<Status>, kill: Option<Status>)

  /** Python's timedelta.seconds: whole seconds within the day, the days dropped. */
  function SecondsField(microseconds: int): int {
    (microseconds / 1000000) % 86400
  }

  function Retries(m: Memory, id: JobId): nat {
    if id in m.retries then m.retries[id] else 0
  }

  /** The counter after the increments made elsewhere and the one made by this poll. */
  function Retried(m: Memory, o: Observation): nat {
    Retries(m, o.id) + o.otherRetries + if o.result == PodRestart && o.First() then 1 else 0
  }

  /** The poll finds an entry too old and deletes it. */
  predicate Expires(unusual: map<JobId, int>, o: Observation) {
    o.First() && o.Unusual() && o.id in unusual && SecondsField(o.now - unusual[o.id]) > 30
  }

  /** Only if nothing raises in between, the kill for resubmission follows. */
  predicate Resubmits(unusual: map<JobId, int>, o: Observation) {
    Expires(unusual, o) && o.Second()
  }

  function UnusualAfter(unusual: map<JobId, int>, o: Observation): map<JobId, int> {
    if Expires(unusual, o) || (!o.Unusual() && !o.Raises()) then unusual - {o.id}
    else if o.Unusual() && o.First() && o.id !in unusual then unusual[o.id := o.now]
    else unusual
  }

  function MemoryAfter(m: Memory, o: Observation): Memory {
    Memory(UnusualAfter(m.unusual, o), m.retries[o.id := Retried(m, o)])
  }

  function EffectOf(m: Memory, status: Status, o: Observation): Effect {
    if !o.First() then Effect(None, None)
    else
      match o.result
      case PodSucceeded => Effect(Some(Finished), None)
      case PodRunning =>
        Effect(if status == Running then None else Some(Running), if o.overtime && o.Second() then Some(Killed) else None)
      case PodRestart => Effect(if o.Second() then Some(if Retried(m, o) >= 500 then Error else Queued) else None, None)
      case PodFailed => Effect(Some(Failed), None)
      case PodUnknown | PodNotFound => Effect(None, if Resubmits(m.unusual, o) then Some(Queued) else None)
      case PodPending => Effect(if o.pullBackOff then Some(Error) else None, None)
  }

  /** The row a poll leaves. */
  function RowAfter(m: Memory, row: Status, o: Observation): Status {
    var written := EffectOf(m, row, o).status;
    if written.Some? then written.value else row
  }

  /** What a poll of an active job does, result by result; `count` is the counter after it. A poll that raises before
      any effect leaves everything as it was. */
  lemma PollOutcome(m: Memory, row: Status, o: Observation, count: nat)
    requires IsActive(row) && count == MemoryAfter(m, o).retries[o.id]
    ensures RowAfter(m, row, o) == Finished <==> o.result == PodSucceeded && o.reach != Nothing
    ensures RowAfter(m, row, o) == Failed <==> o.result == PodFailed && o.reach != Nothing
    ensures RowAfter(m, row, o) == Queued <==> o.result == PodRestart && o.reach in {Both, Everything} && count < 500
    ensures RowAfter(m, row, o) == Error <==>
            || (o.result == PodRestart && o.reach in {Both, Everything} && count >= 500)
            || (o.result == PodPending && o.pullBackOff && o.reach != Nothing)
    ensures RowAfter(m, row, o) == Running <==> (row == Running && !Ends(o, count)) || (o.result == PodRunning && o.reach != Nothing)
    ensures RowAfter(m, row, o) in {Finished, Failed, Queued, Error, Running, row}
    ensures EffectOf(m, row, o).kill == Some(Killed) <==> o.result == PodRunning && o.overtime && o.reach in {Both, Everything}
    ensures EffectOf(m, row, o).kill == Some(Queued) <==>
            && o.result in {PodUnknown, PodNotFound} && o.reach in {Both, Everything}
            && o.id in m.unusual && SecondsField(o.now - m.unusual[o.id]) > 30
    ensures EffectOf(m, row, o).kill in {None, Some(Killed), Some(Queued)}
    ensures count == (if o.id in m.retries then m.retries[o.id] else 0) + o.otherRetries +
                     if o.result == PodRestart && o.reach != Nothing then 1 else 0
  {
  }

  /** The poll takes the job out of its active status. */
  predicate Ends(o: Observation, count: nat) {
    && o.reach != Nothing
    && (o.result in {PodSucceeded, PodFailed} || (o.result == PodRestart && o.reach != One) || (o.result == PodPending && o.pullBackOff))
  }

  /** Preemptible jobs are approved unseen, others only into an existing virtual cluster. */
  function ApprovedStatus(vcExists: bool, spec: Spec): (r: Status)
    ensures r == Queued <==> spec.preemptible || vcExists
    ensures r == Queued || r == Killed
  {
    if spec.preemptible || vcExists then Queued else Killed
  }

  /** One manager process with its dictionary of unusual jobs and the job table it writes. */
  class StatusManager {
    var unusual: map<JobId, int>
    var retries: map<JobId, nat>
    var status: map<JobId, Status>

    method ApproveJob(id: JobId, spec: Spec, vcs: seq<string>) returns (approved: bool)
      requires id in status && status[id] == Unapproved
      modifies this`status
      ensures status == old(status)[id := if spec.preemptible || spec.vc in vcs then Queued else Killed]
      ensures approved == (status[id] == Queued)
    {
      if spec.preemptible {
        status := status[id := Queued];
        return true;
      }
      var found := false;
      for i := 0 to |vcs|
        invariant found == (spec.vc in vcs[..i]) && status == old(status)
      {
        assert vcs[..i + 1] == vcs[..i] + [vcs[i]];
        if vcs[i] == spec.vc {
          found := true;
        }
      }
      assert vcs[..|vcs|] == vcs;
      status := status[id := if found then Queued else Killed];
      return found;
    }

    /** The branch of an unusual poll: opens an entry, or deletes one that is too old. */
    method TrackUnusual(o: Observation) returns (expired: bool)
      requires o.Unusual() && o.First()
      modifies this`unusual
      ensures unusual == UnusualAfter(old(unusual), o) && expired == Expires(old(unusual), o)
    {
      expired := false;
      if o.id !in unusual {
        unusual := unusual[o.id := o.now];
      } else if SecondsField(o.now - unusual[o.id]) > 30 {
        unusual := unusual - {o.id};
        expired := true;
      }
    }

    /** The counter column, raised elsewhere since the last poll and once more for a Restart. */
    method AddAndGetRetries(o: Observation) returns (count: nat)
      modifies this`retries
      ensures count == Retried(Memory(unusual, old(retries)), o) && retries == old(retries)[o.id := count]
      ensures count == (if o.id in old(retries) then old(retries)[o.id] else 0) + o.otherRetries +
                       if o.result == PodRestart && o.reach != Nothing then 1 else 0
    {
      count := (if o.id in retries then retries[o.id] else 0) + o.otherRetries;
      if o.result == PodRestart && o.First() {
        count := count + 1;
      }
      retries := retries[o.id := count];
    }

    method UpdateJobStatus(o: Observation) returns (kill: Option<Status>)
      requires o.id in status && IsActive(status[o.id])
      modifies this
      ensures Memory(unusual, retries) == MemoryAfter(Memory(old(unusual), old(retries)), o)
      ensures var effect := EffectOf(Memory(old(unusual), old(retries)), old(status)[o.id], o);
              && kill == effect.kill
              && status == if effect.status.Some? then old(status)[o.id := effect.status.value] else old(status)
    {
      kill := None;
      var count := AddAndGetRetries(o);
      if !o.First() {
        return;
      }
      if o.result == PodSucceeded {
        status := status[o.id := Finished];
      } else if o.result == PodRunning {
        if status[o.id] != Running {
          status := status[o.id := Running];
        }
        if o.overtime && o.Second() {
          kill := Some(Killed);
        }
      } else if o.result == PodRestart {
        if o.Second() {
          status := status[o.id := if count >= 500 then Error else Queued];
        }
      } else if o.result == PodFailed {
        status := status[o.id := Failed];
      } else if o.result == PodUnknown || o.result == PodNotFound {
        var expired := TrackUnusual(o);
        if expired && o.Second() {
          kill := Some(Queued);
        }
      } else if o.pullBackOff {
        status := status[o.id := Error];
      }
      if !o.Raises() && o.result != PodUnknown && o.result != PodNotFound && o.id in unusual {
        unusual := unusual - {o.id};
      }
    }
  }

  // ---- Runs of polls -------------------------------------------------------------------------------

  function MemoryAfterAll(m: Memory, polls: seq<Observation>): Memory {
    if polls == [] then m else MemoryAfter(MemoryAfterAll(m, polls[..|polls| - 1]), polls[|polls| - 1])
  }

  /** The memory of a fresh process just before poll `k`; the retry counters are those of the table. */
  function Before(retries: map<JobId, nat>, polls: seq<Observation>, k: nat): Memory
    requires k <= |polls|
  {
    MemoryAfterAll(Memory(map[], retries), polls[..k])
  }

  predicate ExpiresAt(retries: map<JobId, nat>, polls: seq<Observation>, k: nat)
    requires k < |polls|
  {
    Expires(Before(retries, polls, k).unusual, polls[k])
  }

  predicate ResubmitsAt(retries: map<JobId, nat>, polls: seq<Observation>, k: nat)
    requires k < |polls|
  {
    Resubmits(Before(retries, polls, k).unusual, polls[k])
  }

  lemma BeforeStep(retries: map<JobId, nat>, polls: seq<Observation>, k: nat)
    requires k < |polls|
    ensures Before(retries, polls, k + 1) == MemoryAfter(Before(retries, polls, k), polls[k])
  {
    assert polls[..k + 1][..k] == polls[..k];
  }

  /** Poll `k` leaves an open stretch of the job open: it is unusual and not too late, or it raises. */
  predicate StaysOpen(retries: map<JobId, nat>, polls: seq<Observation>, id: JobId, k: nat)
    requires k < |polls|
  {
    polls[k].id == id ==> (polls[k].Unusual() || polls[k].Raises()) && !ExpiresAt(retries, polls, k)
  }

  predicate OpenSince(retries: map<JobId, nat>, polls: seq<Observation>, id: JobId, i: nat, k: nat)
    requires i <= k <= |polls|
  {
    forall j | i <= j < k :: StaysOpen(retries, polls, id, j)
  }

  /** Poll `j` of the job would enter the time in an empty dictionary. */
  predicate Opens(polls: seq<Observation>, id: JobId, j: nat)
    requires j < |polls|
  {
    polls[j].id == id && polls[j].Unusual() && polls[j].First()
  }

  /** Poll `i` opened the stretch of the job that is still open before poll `k`. */
  predicate OpenedBy(retries: map<JobId, nat>, polls: seq<Observation>, id: JobId, i: nat, k: nat)
    requires i < k <= |polls|
  {
    && Opens(polls, id, i)
    && OpenSince(retries, polls, id, i, k)
    && forall j | 0 <= j < i && Opens(polls, id, j) :: !OpenSince(retries, polls, id, j, k)
  }

  /** The dictionary holds exactly the open stretches, each with the time of the poll that opened it. */
  lemma {:induction false} UnusualEntry(retries: map<JobId, nat>, polls: seq<Observation>, id: JobId, k: nat)
    returns (i: nat)
    requires k <= |polls|
    ensures id in Before(retries, polls, k).unusual ==>
              i < k && OpenedBy(retries, polls, id, i, k) && Before(retries, polls, k).unusual[id] == polls[i].now
    ensures id !in Before(retries, polls, k).unusual ==>
              forall j | 0 <= j < k && Opens(polls, id, j) :: !OpenSince(retries, polls, id, j, k)
  {
    i := 0;
    if k == 0 {
    } else {
      var before := UnusualEntry(retries, polls, id, k - 1);
      BeforeStep(retries, polls, k - 1);
      EntryStep(Before(retries, polls, k - 1), polls[k - 1], id);
      AllSinceStep(retries, polls, id, k - 1);
      if id in Before(retries, polls, k - 1).unusual {
        i := before;
        if StaysOpen(retries, polls, id, k - 1) { OpenedStep(retries, polls, id, i, k - 1); }
      } else {
        i := k - 1;
        if Opens(polls, id, i) { OpensNow(retries, polls, id, i); }
      }
    }
  }

  lemma OpensNow(retries: map<JobId, nat>, polls: seq<Observation>, id: JobId, k: nat)
    requires k < |polls| && Opens(polls, id, k) && id !in Before(retries, polls, k).unusual
    requires forall j | 0 <= j < k && Opens(polls, id, j) :: !OpenSince(retries, polls, id, j, k)
    ensures OpenedBy(retries, polls, id, k, k + 1)
  {
    AllSinceStep(retries, polls, id, k);
  }

  /** What one poll does to the entry of a job. */
  lemma EntryStep(m: Memory, o: Observation, id: JobId)
    ensures var after := MemoryAfter(m, o).unusual;
            && (o.id != id ==> (id in after <==> id in m.unusual))
            && (o.id == id && id in m.unusual ==>
                  (id in after <==> (o.Unusual() || o.Raises()) && !Expires(m.unusual, o)))
            && (o.id == id && id !in m.unusual ==> (id in after <==> o.Unusual() && o.First()))
            && (id in after ==> after[id] == if id in m.unusual then m.unusual[id] else o.now)
  {
  }

  lemma OpenedStep(retries: map<JobId, nat>, polls: seq<Observation>, id: JobId, i: nat, k: nat)
    requires i < k < |polls| && OpenedBy(retries, polls, id, i, k) && StaysOpen(retries, polls, id, k)
    ensures OpenedBy(retries, polls, id, i, k + 1)
  {
    AllSinceStep(retries, polls, id, k);
  }

  lemma AllSinceStep(retries: map<JobId, nat>, polls: seq<Observation>, id: JobId, k: nat)
    requires k < |polls|
    ensures forall j | 0 <= j <= k ::
              OpenSince(retries, polls, id, j, k + 1) == (OpenSince(retries, polls, id, j, k) && StaysOpen(retries, polls, id, k))
  {
    forall j | 0 <= j <= k
      ensures OpenSince(retries, polls, id, j, k + 1) == (OpenSince(retries, polls, id, j, k) && StaysOpen(retries, polls, id, k))
    {
      SinceStep(retries, polls, id, j, k);
    }
  }

  lemma SinceStep(retries: map<JobId, nat>, polls: seq<Observation>, id: JobId, j: nat, k: nat)
    requires j <= k < |polls|
    ensures OpenSince(retries, polls, id, j, k + 1) == (OpenSince(retries, polls, id, j, k) && StaysOpen(retries, polls, id, k))
  {
  }

  /** A poll resubmits a job exactly when it is unusual, a stretch is open, the seconds field of the time since the
      stretch was opened exceeds 30, and it does not raise before the kill. */
  lemma ResubmitExactly(retries: map<JobId, nat>, polls: seq<Observation>, k: nat, row: Status)
    requires k < |polls|
    ensures ResubmitsAt(retries, polls, k) <==> EffectOf(Before(retries, polls, k), row, polls[k]).kill == Some(Queued)
    ensures ResubmitsAt(retries, polls, k) <==>
            polls[k].Unusual() && polls[k].Second() &&
            exists i :: 0 <= i < k && OpenedBy(retries, polls, polls[k].id, i, k) && SecondsField(polls[k].now - polls[i].now) > 30
  {
    var i := UnusualEntry(retries, polls, polls[k].id, k);
    forall j | 0 <= j < k && OpenedBy(retries, polls, polls[k].id, j, k)
      ensures polls[k].id in Before(retries, polls, k).unusual && i == j
    {
    }
  }

  /** Every poll of the job from `i` on to `k` found it Unknown or NotFound. */
  predicate Unbroken(polls: seq<Observation>, id: JobId, i: nat, k: nat)
    requires i <= k < |polls|
  {
    forall j | i <= j <= k && polls[j].id == id :: polls[j].Unusual()
  }

  /** A poll of the job that is not unusual raises and so leaves the entry in the dictionary. */
  predicate Overlooked(polls: seq<Observation>, id: JobId, j: nat)
    requires j < |polls|
  {
    polls[j].id == id && polls[j].Raises() && !polls[j].Unusual()
  }

  /** Whenever a job is resubmitted: the run of polls since the stretch was opened is unbroken exactly when none of
      them was overlooked because it raised, and the run spans more than 30 seconds exactly when the clock shows no
      earlier time than at the opening. */
  lemma ResubmitRunExactly(retries: map<JobId, nat>, polls: seq<Observation>, k: nat, i: nat)
    requires k < |polls| && ResubmitsAt(retries, polls, k)
    requires i < k && OpenedBy(retries, polls, polls[k].id, i, k)
    ensures Unbroken(polls, polls[k].id, i, k) <==> forall j | i <= j < k :: !Overlooked(polls, polls[k].id, j)
    ensures polls[k].now - polls[i].now > 30 * 1000000 <==> polls[k].now >= polls[i].now
  {
    var opener := UnusualEntry(retries, polls, polls[k].id, k);
    assert i == opener;
    if polls[k].now >= polls[i].now { SecondsAtMostElapsed(polls[k].now - polls[i].now); }
    forall j | i <= j < k && polls[j].id == polls[k].id
      ensures polls[j].Unusual() <==> !Overlooked(polls, polls[k].id, j)
    {
      assert StaysOpen(retries, polls, polls[k].id, j);
    }
  }

  ghost predicate ClockMonotone(polls: seq<Observation>) {
    forall i, j | 0 <= i < j < |polls| :: polls[i].now <= polls[j].now
  }

  /** With a clock that never goes back and no poll of the job overlooked, a job is resubmitted only after an
      unbroken run of Unknown or NotFound polls spanning more than 30 seconds. */
  lemma ResubmitOnlyAfterLongRun(retries: map<JobId, nat>, polls: seq<Observation>, k: nat)
    requires k < |polls| && ResubmitsAt(retries, polls, k) && ClockMonotone(polls)
    requires forall j | 0 <= j < k :: !Overlooked(polls, polls[k].id, j)
    ensures exists i | 0 <= i < k ::
              polls[i].id == polls[k].id && Unbroken(polls, polls[k].id, i, k) && polls[k].now - polls[i].now > 30 * 1000000
  {
    var i := UnusualEntry(retries, polls, polls[k].id, k);
    ResubmitRunExactly(retries, polls, k, i);
  }

  lemma SecondsAtMostElapsed(elapsed: int)
    requires elapsed >= 0
    ensures SecondsField(elapsed) * 1000000 <= elapsed
  {
  }

  function Seen(id: JobId, result: PodStatus, now: int, reach: Reach): Observation {
    Observation(id, result, now, false, false, 0, reach)
  }

  lemma MemoryOfOne(first: Observation, second: Observation)
    ensures Before(map[], [first, second], 1) == MemoryAfter(Memory(map[], map[]), first)
  {
    assert [first, second][..1] == [first] && [first][..0] == [];
    assert MemoryAfterAll(Memory(map[], map[]), []) == Memory(map[], map[]);
  }

  /** The converse and the clock condition both fail: the seconds field drops whole days and a step back of the
      clock wraps to almost a day. */
  lemma SecondsFieldWraps(id: JobId)
    ensures var day := 24 * 3600 * 1000000;
            && !ResubmitsAt(map[], [Seen(id, PodUnknown, 0, Everything), Seen(id, PodUnknown, day, Everything)], 1)
            && ResubmitsAt(map[], [Seen(id, PodUnknown, 0, Everything), Seen(id, PodUnknown, -1, Everything)], 1)
  {
    forall second: Observation ensures Before(map[], [Seen(id, PodUnknown, 0, Everything), second], 1).unusual == map[id := 0] {
      MemoryOfOne(Seen(id, PodUnknown, 0, Everything), second);
    }
  }

  /** A run can be broken: a poll that finds the job Running but raises leaves the old entry, and the next unusual
      poll resubmits the job at once. */
  lemma RaisingPollOverlooked(id: JobId)
    ensures var polls := [Seen(id, PodUnknown, 0, Everything), Seen(id, PodRunning, 10000000, One),
                          Seen(id, PodUnknown, 40000000, Everything)];
            ResubmitsAt(map[], polls, 2) && OpenedBy(map[], polls, id, 0, 2) && !Unbroken(polls, id, 0, 2)
  {
    var polls := [Seen(id, PodUnknown, 0, Everything), Seen(id, PodRunning, 10000000, One),
                  Seen(id, PodUnknown, 40000000, Everything)];
    assert polls[..0] == [];
    BeforeStep(map[], polls, 0);
    BeforeStep(map[], polls, 1);
    assert Before(map[], polls, 1).unusual == map[id := 0] == Before(map[], polls, 2).unusual;
    assert SecondsField(40000000) == 40;
    assert StaysOpen(map[], polls, id, 0) && StaysOpen(map[], polls, id, 1);
  }

  /** A poll that raises between deleting the entry and the kill loses the resubmission: the next one only opens a
      new stretch. */
  lemma RaisingExpiryLosesKill(id: JobId)
    ensures var polls := [Seen(id, PodUnknown, 0, Everything), Seen(id, PodUnknown, 40000000, One)];
            ExpiresAt(map[], polls, 1) && !ResubmitsAt(map[], polls, 1) && id !in Before(map[], polls, 2).unusual
  {
    var polls := [Seen(id, PodUnknown, 0, Everything), Seen(id, PodUnknown, 40000000, One)];
    MemoryOfOne(polls[0], polls[1]);
    BeforeStep(map[], polls, 1);
    assert SecondsField(40000000) == 40;
  }

  // ---- Retries -------------------------------------------------------------------------------------

  /** How often a poll of the job saw Restart and left the row queued; `rows` are the statuses the polls found. */
  function Requeues(m: Memory, polls: seq<Observation>, rows: seq<Status>, id: JobId): nat
    requires |rows| == |polls|
  {
    if polls == [] then 0
    else
      var k := |polls| - 1;
      Requeues(m, polls[..k], rows[..k], id) +
      if polls[k].id == id && polls[k].result == PodRestart && rows[k] != Queued &&
         RowAfter(MemoryAfterAll(m, polls[..k]), rows[k], polls[k]) == Queued
      then 1 else 0
  }

  lemma {:induction false} RequeuesBelowCounter(m: Memory, polls: seq<Observation>, rows: seq<Status>, id: JobId)
    requires |rows| == |polls|
    ensures Retries(m, id) <= Retries(MemoryAfterAll(m, polls), id)
    ensures Requeues(m, polls, rows, id) + Retries(m, id) <= Retries(MemoryAfterAll(m, polls), id)
    ensures Requeues(m, polls, rows, id) <= if Retries(m, id) < 499 then 499 - Retries(m, id) else 0
  {
    if polls == [] {
    } else {
      RequeuesBelowCounter(m, polls[..|polls| - 1], rows[..|polls| - 1], id);
    }
  }

  /** However many polls there are, and however the counter is raised elsewhere, a job returns from Restart to
      the queue fewer than 500 times. */
  lemma FewerThan500Requeues(m: Memory, polls: seq<Observation>, rows: seq<Status>, id: JobId)
    requires |rows| == |polls|
    ensures Requeues(m, polls, rows, id) < 500
  {
    RequeuesBelowCounter(m, polls, rows, id);
  }
}

/** The endpoint workers: a main loop that starts at most one worker per job and completion callbacks that clear the
    shared dictionary (src/ClusterManager/endpoint_manager.py, start_endpoints and clear_done_job_id). */
module Endpoints {
  import opened Jobs

  type Ticket = nat

  /** One pool.submit: its job, whether its function has returned, whether the callback is registered with it, and
      whether the callback has run. */
  datatype Future = Future(job: JobId, finished: bool, attached: bool, calledBack: bool)

  /** Where the main loop is; `todo` are the pending jobs of this round it has not looked at. */
  datatype Main =
    | Idle
    | Looping(todo: seq<JobId>)
    | Submitted(f: Ticket, todo: seq<JobId>)     // submitted, not yet in the dictionary
    | Stored(f: Ticket, todo: seq<JobId>)        // in the dictionary, callback not yet attached
    | Clearing(f: Ticket, todo: seq<JobId>)      // add_done_callback found it done and runs the callback itself

  datatype State = State(running: map<JobId, Ticket>, futures: map<Ticket, Future>, main: Main)

  datatype Event =
    | StartRound(pending: seq<JobId>)
    | EndRound                       // the list is exhausted, or an exception ends the round early
    | LookAt(f: Ticket)              // skip a job that is running, or submit a worker under a new ticket
    | Store
    | Attach
    | ClearInMain
    | Finish(f: Ticket)              // the worker function returns
    | ClearInPool(f: Ticket)         // the worker thread runs the attached callback

  predicate Enabled(s: State, e: Event) {
    match e
    case StartRound(_) => s.main.Idle?
    case EndRound => s.main.Looping?
    case LookAt(f) => s.main.Looping? && s.main.todo != [] && f !in s.futures
    case Store => s.main.Submitted? && s.main.f in s.futures
    case Attach => s.main.Stored? && s.main.f in s.futures
    case ClearInMain => s.main.Clearing? && s.main.f in s.futures
    case Finish(f) => f in s.futures && !s.futures[f].finished
    case ClearInPool(f) => f in s.futures && s.futures[f].finished && s.futures[f].attached && !s.futures[f].calledBack
  }

  /** clear_done_job_id: pops whatever the dictionary holds for the job. */
  function Clear(s: State, f: Ticket): State
    requires f in s.futures
  {
    s.(running := s.running - {s.futures[f].job}, futures := s.futures[f := s.futures[f].(calledBack := true)])
  }

  function Apply(s: State, e: Event): State
    requires Enabled(s, e)
  {
    match e
    case StartRound(pending) => s.(main := Looping(pending))
    case EndRound => s.(main := Idle)
    case LookAt(f) =>
      var job, rest := s.main.todo[0], s.main.todo[1..];
      if job in s.running then s.(main := Looping(rest))
      else s.(futures := s.futures[f := Future(job, false, false, false)], main := Submitted(f, rest))
    case Store => s.(running := s.running[s.futures[s.main.f].job := s.main.f], main := Stored(s.main.f, s.main.todo))
    case Attach =>
      if s.futures[s.main.f].finished then s.(main := Clearing(s.main.f, s.main.todo))
      else s.(futures := s.futures[s.main.f := s.futures[s.main.f].(attached := true)], main := Looping(s.main.todo))
    case ClearInMain => Clear(s, s.main.f).(main := Looping(s.main.todo))
    case Finish(f) => s.(futures := s.futures[f := s.futures[f].(finished := true)])
    case ClearInPool(f) => Clear(s, f)
  }

  ghost predicate Initial(s: State) {
    s == State(map[], map[], Idle)
  }

  ghost predicate Run(states: seq<State>, events: seq<Event>) {
    && |states| == |events| + 1
    && forall i | 0 <= i < |events| :: Enabled(states[i], events[i]) && states[i + 1] == Apply(states[i], events[i])
  }

  /** The ticket the main loop is about to hand over. */
  predicate InHand(s: State, f: Ticket) {
    (s.main.Submitted? || s.main.Stored? || s.main.Clearing?) && s.main.f == f
  }

  /** A worker whose callback has not run is the one in the dictionary, unless it was submitted this instant; every
      entry is such a worker; and every such worker not in the main loop's hand has its callback attached. */
  ghost predicate Inv(s: State) {
    && (forall f | f in s.futures && !s.futures[f].calledBack ::
          if s.main.Submitted? && s.main.f == f then s.futures[f].job !in s.running
          else s.futures[f].job in s.running && s.running[s.futures[f].job] == f)
    && (forall job | job in s.running :: s.running[job] in s.futures && s.futures[s.running[job]].job == job &&
                                         !s.futures[s.running[job]].calledBack)
    && (forall f | f in s.futures && s.futures[f].calledBack :: s.futures[f].finished)
    && (forall f | f in s.futures && !s.futures[f].calledBack && !InHand(s, f) :: s.futures[f].attached)
    && (forall f | InHand(s, f) :: f in s.futures && !s.futures[f].attached && !s.futures[f].calledBack)
    && (s.main.Clearing? ==> s.futures[s.main.f].finished)
  }

  lemma StepKeepsInv(s: State, e: Event)
    requires Inv(s) && Enabled(s, e)
    ensures Inv(Apply(s, e))
  {
    match e
    case StartRound(_) =>
    case EndRound =>
    case LookAt(f) => LookAtKeepsInv(s, f);
    case Store => StoreKeepsInv(s);
    case Attach => AttachKeepsInv(s);
    case ClearInMain =>
      assert InHand(s, s.main.f);
      ClearKeepsInv(s, s.main.f);
    case Finish(f) => FinishKeepsInv(s, f);
    case ClearInPool(f) => ClearKeepsInv(s, f);
  }

  lemma LookAtKeepsInv(s: State, f: Ticket)
    requires Inv(s) && Enabled(s, LookAt(f))
    ensures Inv(Apply(s, LookAt(f)))
  {
  }

  lemma StoreKeepsInv(s: State)
    requires Inv(s) && Enabled(s, Store)
    ensures Inv(Apply(s, Store))
  {
    assert InHand(s, s.main.f);
  }

  lemma AttachKeepsInv(s: State)
    requires Inv(s) && Enabled(s, Attach)
    ensures Inv(Apply(s, Attach))
  {
    assert InHand(s, s.main.f);
  }

  lemma FinishKeepsInv(s: State, f: Ticket)
    requires Inv(s) && Enabled(s, Finish(f))
    ensures Inv(Apply(s, Finish(f)))
  {
  }

  /** Popping the entry of a finished worker that is in the dictionary, by whichever thread runs the callback. */
  lemma ClearKeepsInv(s: State, f: Ticket)
    requires Inv(s) && f in s.futures && s.futures[f].finished && !s.futures[f].calledBack
    requires s.main.Clearing? || !InHand(s, f)
    ensures Inv(Clear(s, f).(main := if InHand(s, f) then Looping(s.main.todo) else s.main))
  {
  }

  lemma {:induction false} RunKeepsInv(states: seq<State>, events: seq<Event>, n: nat)
    requires Run(states, events) && Initial(states[0]) && n < |states|
    ensures Inv(states[n])
  {
    if n == 0 {
    } else {
      RunKeepsInv(states, events, n - 1);
      StepKeepsInv(states[n - 1], events[n - 1]);
    }
  }

  /** In every interleaving at most one worker per job is in flight; indeed at most one whose callback is still to run. */
  lemma OneWorkerPerJob(states: seq<State>, events: seq<Event>, n: nat, f: Ticket, g: Ticket)
    requires Run(states, events) && Initial(states[0]) && n < |states|
    requires f in states[n].futures && g in states[n].futures && states[n].futures[f].job == states[n].futures[g].job
    requires !states[n].futures[f].finished || !states[n].futures[f].calledBack
    requires !states[n].futures[g].finished || !states[n].futures[g].calledBack
    ensures f == g
  {
    RunKeepsInv(states, events, n);
  }

  /** The callback removes its own worker's entry, never another's: just before it runs the entry is that worker's,
      and afterwards the job has none. */
  lemma CallbackClearsOwnEntry(states: seq<State>, events: seq<Event>, n: nat)
    requires Run(states, events) && Initial(states[0]) && n < |events|
    requires events[n].ClearInPool? || events[n].ClearInMain?
    ensures var f := if events[n].ClearInPool? then events[n].f else states[n].main.f;
            && f in states[n].futures
            && states[n].futures[f].job in states[n].running && states[n].running[states[n].futures[f].job] == f
            && states[n + 1].running == states[n].running - {states[n].futures[f].job}
  {
    RunKeepsInv(states, events, n);
    if events[n].ClearInMain? { assert InHand(states[n], states[n].main.f); }
  }

  /** No entry outlives its worker's callback. */
  lemma NoStaleEntry(states: seq<State>, events: seq<Event>, n: nat, job: JobId)
    requires Run(states, events) && Initial(states[0]) && n < |states| && job in states[n].running
    ensures var f := states[n].running[job];
            f in states[n].futures && states[n].futures[f].job == job && !states[n].futures[f].calledBack
  {
    RunKeepsInv(states, events, n);
  }

  /** A job the main loop has looked at has a worker whose callback is still to run, a new one unless it had one. */
  lemma LookedAtInFlight(states: seq<State>, events: seq<Event>, n: nat) returns (f: Ticket)
    requires Run(states, events) && Initial(states[0]) && n < |events| && events[n].LookAt?
    ensures var (job, t) := (states[n].main.todo[0], states[n + 1]);
            && f in t.futures && t.futures[f].job == job && !t.futures[f].calledBack
            && (f in states[n].futures <==> job in states[n].running)
            && (forall g | g in t.futures && g !in states[n].futures :: g == f)
  {
    RunKeepsInv(states, events, n);
    var job := states[n].main.todo[0];
    f := if job in states[n].running then states[n].running[job] else events[n].f;
  }

  lemma {:induction false} AboveAll(tickets: set<Ticket>) returns (f: Ticket)
    ensures forall g | g in tickets :: g < f
    decreases |tickets|
  {
    if tickets == {} {
      f := 0;
    } else {
      var g :| g in tickets;
      var rest := AboveAll(tickets - {g});
      f := if rest > g then rest else g + 1;
      forall other | other in tickets ensures other < f {
        if other != g { assert other in tickets - {g}; }
      }
    }
  }

  /** From any round the main loop can, in at most three steps a job, reach the end of its list with every pending job
      in the dictionary, and no job that was there lost. */
  lemma {:induction false} StartsAll(s: State, todo: seq<JobId>) returns (events: seq<Event>, t: State)
    requires Inv(s) && s.main == Looping(todo)
    ensures Steps(s, events, t) && |events| <= 3 * |todo| && t.main == Looping([])
    ensures (forall job | job in todo :: job in t.running) && (forall job | job in s.running :: job in t.running)
    decreases |todo|
  {
    if todo == [] {
      events, t := [], s;
    } else {
      var f := AboveAll(s.futures.Keys);
      var s1 := Apply(s, LookAt(f));
      StepKeepsInv(s, LookAt(f));
      if todo[0] in s.running {
        events, t := StartsAll(s1, todo[1..]);
      } else {
        var s2 := Apply(s1, Store);
        StepKeepsInv(s1, Store);
        var s3 := Apply(s2, Attach);
        StepKeepsInv(s2, Attach);
        events, t := StartsAll(s3, todo[1..]);
        StepsOne(s2, Attach, events, t);
        StepsOne(s1, Store, [Attach] + events, t);
        events := [Store] + ([Attach] + events);
      }
      StepsOne(s, LookAt(f), events, t);
      events := [LookAt(f)] + events;
      forall job | job in todo ensures job in t.running {
        if job != todo[0] { assert job in todo[1..]; }
      }
    }
  }

  ghost predicate Steps(s: State, events: seq<Event>, t: State)
    decreases |events|
  {
    if events == [] then s == t
    else Enabled(s, events[0]) && Steps(Apply(s, events[0]), events[1..], t)
  }

  /** A finished worker is always cleared: by its own thread if the callback is attached, otherwise by at most three
      steps of the main loop, also when it finished before the callback was attached. */
  lemma FinishedIsCleared(s: State, f: Ticket) returns (events: seq<Event>, t: State)
    requires Inv(s) && f in s.futures && s.futures[f].finished && !s.futures[f].calledBack
    ensures |events| <= 3 && Steps(s, events, t)
    ensures s.futures[f].attached ==> events == [ClearInPool(f)]
    ensures !s.futures[f].attached ==> forall e | e in events :: e in {Store, Attach, ClearInMain}
    ensures f in t.futures && t.futures[f].finished && t.futures[f].calledBack && s.futures[f].job !in t.running
    ensures forall job | job in s.running && job != s.futures[f].job :: job in t.running && t.running[job] == s.running[job]
  {
    if s.futures[f].attached {
      events, t := [ClearInPool(f)], Apply(s, ClearInPool(f));
      assert Steps(t, events[1..], t);
    } else {
      assert InHand(s, f);
      var s1 := if s.main.Submitted? then Apply(s, Store) else s;
      var s2 := if s1.main.Stored? then Apply(s1, Attach) else s1;
      t := Apply(s2, ClearInMain);
      assert Steps(t, [], t);
      StepsOne(s2, ClearInMain, [], t);
      events := [ClearInMain];
      if s1.main.Stored? {
        StepsOne(s1, Attach, events, t);
        events := [Attach] + events;
      }
      if s.main.Submitted? {
        StepsOne(s, Store, events, t);
        events := [Store] + events;
      }
    }
  }

  /** Every worker can finish and be cleared, in at most four steps from wherever it is; nobody else's entry goes. */
  lemma WorkersClear(s: State, f: Ticket) returns (events: seq<Event>, t: State)
    requires Inv(s) && f in s.futures && !s.futures[f].calledBack
    ensures |events| <= 4 && Steps(s, events, t)
    ensures f in t.futures && t.futures[f].finished && t.futures[f].calledBack && s.futures[f].job !in t.running
    ensures forall job | job in s.running && job != s.futures[f].job :: job in t.running && t.running[job] == s.running[job]
  {
    if s.futures[f].finished {
      events, t := FinishedIsCleared(s, f);
    } else {
      var s1 := Apply(s, Finish(f));
      StepKeepsInv(s, Finish(f));
      events, t := FinishedIsCleared(s1, f);
      StepsOne(s, Finish(f), events, t);
      events := [Finish(f)] + events;
    }
  }

  lemma StepsOne(s: State, e: Event, events: seq<Event>, t: State)
    requires Enabled(s, e) && Steps(Apply(s, e), events, t)
    ensures Steps(s, [e] + events, t)
  {
    assert ([e] + events)[1..] == events;
  }
}

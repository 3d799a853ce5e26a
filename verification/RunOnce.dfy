/**
 Shutting down after a single pass (cmd/run.go, imageupdater_controller.go).

 The cache warmer lists the resources, adds their number to the WaitGroup, starts the watcher that
 will close StopChan and finally opens the gate. Reconcile events may arrive at any time and any
 number of times per resource; those that pass the gate claim their resource with LoadOrStore, and
 only the claimant runs and signs off.
 */
module RunOnce {
  import opened Options

  /** The key of an ImageUpdater resource. */
  datatype Resource = Resource(namespace: string, name: string)

  datatype Pc = Arrived | Admitted | Running | Ran | Gone

  datatype Event = Event(resource: Resource, pc: Pc)

  datatype Listing = NotListed | Listed | Failed

  datatype Watcher = NoWatcher | Watching | Closed

  datatype State = State(
    listing: Listing,
    // CacheWarmed is closed.
    warmed: bool,
    waitGroup: int,
    watcher: Watcher,
    // How often StopChan has been closed; a second time would panic.
    stopCloses: nat,
    // onceCompleted; which event stored the entry is history
    claimed: map<Resource, nat>,
    events: seq<Event>,
    // History: the runs that are not warm-up runs, in the order they began, and the resources signed off.
    runs: seq<Resource>,
    signedOff: set<Resource>,
    signOffs: nat)

  datatype Step =
    | List
    | ListFails
    | WarmUpEnds
    | Arrive(resource: Resource)
    | Gate(event: nat)
    | Abandon(event: nat)
    | Claim(event: nat)
    | RunEnds(event: nat)
    | SignOff(event: nat)
    | CloseStop

  function Init(): (s: State) {
    State(NotListed, false, 0, NoWatcher, 0, map[], [], [], {}, 0)
  }

  predicate At(s: State, e: nat, pc: Pc) {
    e < |s.events| && s.events[e].pc == pc
  }

  predicate Enabled(resources: set<Resource>, s: State, step: Step) {
    match step
    case List => s.listing.NotListed?
    case ListFails => s.listing.NotListed?
    case WarmUpEnds => s.listing.Listed? && !s.warmed
    case Arrive(r) => r in resources
    case Gate(e) => At(s, e, Arrived)
    case Abandon(e) => At(s, e, Admitted)
    case Claim(e) => At(s, e, Admitted)
    case RunEnds(e) => At(s, e, Running)
    case SignOff(e) => At(s, e, Ran)
    case CloseStop => s.watcher.Watching? && s.waitGroup == 0
  }

  function Move(s: State, e: nat, pc: Pc): State
    requires e < |s.events|
  {
    s.(events := s.events[e := s.events[e].(pc := pc)])
  }

  function Do(resources: set<Resource>, s: State, step: Step): (s': State)
    requires Enabled(resources, s, step)
  {
    match step
    case List =>
      if resources == {} then s.(listing := Listed, stopCloses := s.stopCloses + 1)
      else s.(listing := Listed, waitGroup := s.waitGroup + |resources|, watcher := Watching)
    // The deferred close of CacheWarmed opens the gate on this path as well.
    case ListFails => s.(listing := Failed, warmed := true)
    case WarmUpEnds => s.(warmed := true)
    case Arrive(r) => s.(events := s.events + [Event(r, Arrived)])
    case Gate(e) => Move(s, e, if s.warmed then Admitted else Gone)
    case Abandon(e) => Move(s, e, Gone)
    case Claim(e) =>
      if s.events[e].resource in s.claimed then Move(s, e, Gone)
      else Move(s, e, Running).(claimed := s.claimed[s.events[e].resource := e],
                                runs := s.runs + [s.events[e].resource])
    case RunEnds(e) => Move(s, e, Ran)
    case SignOff(e) =>
      Move(s, e, Gone).(waitGroup := s.waitGroup - 1, signOffs := s.signOffs + 1,
                        signedOff := s.signedOff + {s.events[e].resource})
    case CloseStop => s.(watcher := Closed, stopCloses := s.stopCloses + 1)
  }

  /** The state after a schedule, or None when one of its steps was not enabled. */
  function Execute(resources: set<Resource>, schedule: seq<Step>): (r: Option<State>) {
    if schedule == [] then Some(Init())
    else
      var before := Execute(resources, schedule[..|schedule| - 1]);
      var step := schedule[|schedule| - 1];
      if before.Some? && Enabled(resources, before.value, step) then Some(Do(resources, before.value, step)) else None
  }

  // ---------------------------------------------------------------------------------------------
  // What every step keeps
  // ---------------------------------------------------------------------------------------------

  predicate Active(ev: Event) {
    ev.pc.Running? || ev.pc.Ran?
  }

  /** Only the event that claimed a resource works on it, and only until it signs off. */
  predicate EventInv(ev: Event, e: nat, resources: set<Resource>, claimed: map<Resource, nat>,
                     signedOff: set<Resource>) {
    && ev.resource in resources
    && (Active(ev) ==> ev.resource in claimed && claimed[ev.resource] == e && ev.resource !in signedOff)
  }

  predicate EventsInv(s: State, resources: set<Resource>) {
    && s.signedOff <= s.claimed.Keys <= resources
    && forall e :: 0 <= e < |s.events| ==> EventInv(s.events[e], e, resources, s.claimed, s.signedOff)
  }

  /** Nothing is claimed while the gate is closed. */
  predicate GateInv(s: State) {
    && (!s.warmed ==>
          && s.claimed == map[]
          && forall e :: 0 <= e < |s.events| ==> s.events[e].pc.Arrived? || s.events[e].pc.Gone?)
    && (s.listing.NotListed? ==> !s.warmed)
  }

  /** Every claim has led to exactly one run, and every sign-off is of a different resource. */
  ghost predicate HistoryInv(s: State) {
    |s.signedOff| == s.signOffs && RanOnce(s.runs, s.claimed.Keys)
  }

  /** The runs are of the given resources, each run once. */
  ghost predicate RanOnce(runs: seq<Resource>, resources: set<Resource>) {
    && (forall r :: r in runs <==> r in resources)
    && (forall i, j :: 0 <= i < j < |runs| ==> runs[i] != runs[j])
  }

  predicate ShutdownInv(s: State, resources: set<Resource>) {
    && s.waitGroup == (if s.listing.Listed? then |resources| else 0) - s.signOffs
    && (s.listing.Listed? && resources != {} <==> !s.watcher.NoWatcher?)
    && s.stopCloses == (if s.watcher.Closed? || (s.listing.Listed? && resources == {}) then 1 else 0)
    && (s.watcher.Closed? ==> s.signOffs == |resources|)
  }

  ghost predicate Inv(resources: set<Resource>, s: State) {
    EventsInv(s, resources) && GateInv(s) && HistoryInv(s) && ShutdownInv(s, resources)
  }

  lemma SignedOffSize(s: State, resources: set<Resource>)
    requires EventsInv(s, resources) && HistoryInv(s)
    ensures s.signOffs <= |resources|
    ensures s.signOffs == |resources| <==> s.signedOff == resources
  {
    SubsetSize(s.signedOff, resources);
  }

  lemma SubsetSize<T>(a: set<T>, b: set<T>)
    requires a <= b
    ensures |a| <= |b|
    ensures |a| == |b| <==> a == b
  {
    assert b == a + (b - a);
  }

  lemma StepEvents(resources: set<Resource>, s: State, step: Step)
    requires EventsInv(s, resources) && Enabled(resources, s, step)
    ensures EventsInv(Do(resources, s, step), resources)
  {
    var s' := Do(resources, s, step);
    forall e | 0 <= e < |s'.events| ensures EventInv(s'.events[e], e, resources, s'.claimed, s'.signedOff) {
      if e < |s.events| {
        assert EventInv(s.events[e], e, resources, s.claimed, s.signedOff);
      }
    }
  }

  lemma StepGate(resources: set<Resource>, s: State, step: Step)
    requires GateInv(s) && Enabled(resources, s, step)
    ensures GateInv(Do(resources, s, step))
  {
  }

  lemma StepRuns(resources: set<Resource>, s: State, step: Step)
    requires RanOnce(s.runs, s.claimed.Keys) && Enabled(resources, s, step)
    ensures RanOnce(Do(resources, s, step).runs, Do(resources, s, step).claimed.Keys)
  {
    var s' := Do(resources, s, step);
    if step.Claim? && s.events[step.event].resource !in s.claimed {
      assert s'.claimed.Keys == s.claimed.Keys + {s.events[step.event].resource};
    } else {
      assert s'.claimed.Keys == s.claimed.Keys && s'.runs == s.runs;
    }
  }

  lemma StepHistory(resources: set<Resource>, s: State, step: Step)
    requires EventsInv(s, resources) && HistoryInv(s) && Enabled(resources, s, step)
    ensures HistoryInv(Do(resources, s, step))
  {
    StepRuns(resources, s, step);
    if step.SignOff? {
      assert EventInv(s.events[step.event], step.event, resources, s.claimed, s.signedOff);
      assert |s.signedOff + {s.events[step.event].resource}| == |s.signedOff| + 1;
    }
  }

  lemma StepShutdown(resources: set<Resource>, s: State, step: Step)
    requires EventsInv(s, resources) && HistoryInv(s) && ShutdownInv(s, resources)
    requires Enabled(resources, s, step)
    ensures ShutdownInv(Do(resources, s, step), resources)
  {
    SignedOffSize(s, resources);
    if step.SignOff? {
      var r := s.events[step.event].resource;
      assert EventInv(s.events[step.event], step.event, resources, s.claimed, s.signedOff);
      SubsetSize(s.signedOff + {r}, resources);
    }
  }

  lemma StepInv(resources: set<Resource>, s: State, step: Step)
    requires Inv(resources, s) && Enabled(resources, s, step)
    ensures Inv(resources, Do(resources, s, step))
  {
    StepEvents(resources, s, step);
    StepGate(resources, s, step);
    StepHistory(resources, s, step);
    StepShutdown(resources, s, step);
  }

  lemma {:induction false} ReachableInv(resources: set<Resource>, schedule: seq<Step>)
    requires Execute(resources, schedule).Some?
    ensures Inv(resources, Execute(resources, schedule).value)
  {
    if schedule != [] {
      var before := schedule[..|schedule| - 1];
      ReachableInv(resources, before);
      StepInv(resources, Execute(resources, before).value, schedule[|schedule| - 1]);
    }
  }

  // ---------------------------------------------------------------------------------------------
  // What run-once mode promises
  // ---------------------------------------------------------------------------------------------

  /**
   With a listing that succeeds, over any number of duplicate events: the WaitGroup never goes
   negative, no resource runs twice, StopChan is closed at most once, and it can be or has been closed
   exactly when every resource has had its one run and that run has finished.
   */
  lemma RunsOnce(resources: set<Resource>, schedule: seq<Step>)
    requires Execute(resources, schedule).Some?
    requires ListFails !in schedule
    ensures var s := Execute(resources, schedule).value;
            && s.waitGroup >= 0
            && s.stopCloses <= 1
            && (forall i, j :: 0 <= i < j < |s.runs| ==> s.runs[i] != s.runs[j])
            && (s.stopCloses == 1 || Enabled(resources, s, CloseStop) <==>
                s.listing.Listed? && s.signedOff == resources)
            && (s.stopCloses == 1 ==>
                  && RanOnce(s.runs, resources)
                  && forall e :: 0 <= e < |s.events| ==> !Active(s.events[e]))
  {
    ReachableInv(resources, schedule);
    NoFailedListing(resources, schedule);
    var s := Execute(resources, schedule).value;
    SignedOffSize(s, resources);
    if !s.listing.Listed? {
      assert s.claimed == map[] && s.signedOff == {};
    }
  }

  lemma {:induction false} NoFailedListing(resources: set<Resource>, schedule: seq<Step>)
    requires Execute(resources, schedule).Some? && ListFails !in schedule
    ensures !Execute(resources, schedule).value.listing.Failed?
  {
    if schedule != [] {
      NoFailedListing(resources, schedule[..|schedule| - 1]);
    }
  }

  /**
   The WaitGroup is kept from going negative by the listing alone: after a listing that failed the
   gate is open all the same, and every run that signs off takes the WaitGroup below zero.
   */
  lemma NegativeExactlyAfterFailedListing(resources: set<Resource>, schedule: seq<Step>)
    requires Execute(resources, schedule).Some?
    ensures var s := Execute(resources, schedule).value;
            && (s.waitGroup < 0 <==> s.listing.Failed? && s.signOffs > 0)
            && (s.listing.Failed? ==> s.waitGroup + s.signOffs == 0 && s.stopCloses == 0)
  {
    ReachableInv(resources, schedule);
    var s := Execute(resources, schedule).value;
    SignedOffSize(s, resources);
    if s.listing.NotListed? {
      assert s.claimed == map[];
    }
  }

  lemma Extend(resources: set<Resource>, schedule: seq<Step>, step: Step)
    requires Execute(resources, schedule).Some? && Enabled(resources, Execute(resources, schedule).value, step)
    ensures Execute(resources, schedule + [step]) == Some(Do(resources, Execute(resources, schedule).value, step))
  {
    assert (schedule + [step])[..|schedule|] == schedule;
  }

  /** A schedule on which that happens, for any resource. */
  lemma FailedListingCounterexample(r: Resource) returns (schedule: seq<Step>)
    ensures Execute({r}, schedule).Some? && Execute({r}, schedule).value.waitGroup == -1
  {
    schedule := [];
    Extend({r}, schedule, ListFails);
    schedule := schedule + [ListFails];
    Extend({r}, schedule, Arrive(r));
    schedule := schedule + [Arrive(r)];
    Extend({r}, schedule, Gate(0));
    schedule := schedule + [Gate(0)];
    Extend({r}, schedule, Claim(0));
    schedule := schedule + [Claim(0)];
    Extend({r}, schedule, RunEnds(0));
    schedule := schedule + [RunEnds(0)];
    Extend({r}, schedule, SignOff(0));
    schedule := schedule + [SignOff(0)];
  }

  // ---------------------------------------------------------------------------------------------
  // The pass can always be finished
  // ---------------------------------------------------------------------------------------------

  /** Whoever claimed a resource is at work on it until it signs off. */
  predicate ClaimsInv(s: State) {
    forall r :: r in s.claimed && r !in s.signedOff ==>
      s.claimed[r] < |s.events| && Active(s.events[s.claimed[r]]) && s.events[s.claimed[r]].resource == r
  }

  lemma StepClaims(resources: set<Resource>, s: State, step: Step)
    requires EventsInv(s, resources) && ClaimsInv(s) && Enabled(resources, s, step)
    ensures ClaimsInv(Do(resources, s, step))
  {
    if step.SignOff? {
      assert EventInv(s.events[step.event], step.event, resources, s.claimed, s.signedOff);
    }
  }

  lemma {:induction false} ReachableClaims(resources: set<Resource>, schedule: seq<Step>)
    requires Execute(resources, schedule).Some?
    ensures ClaimsInv(Execute(resources, schedule).value)
  {
    if schedule != [] {
      var before := schedule[..|schedule| - 1];
      ReachableClaims(resources, before);
      ReachableInv(resources, before);
      StepClaims(resources, Execute(resources, before).value, schedule[|schedule| - 1]);
    }
  }

  /** The schedule can be continued without another listing, to a state where the same is listed and warmed. */
  ghost predicate Continues(resources: set<Resource>, schedule: seq<Step>, schedule': seq<Step>)
    requires Execute(resources, schedule).Some?
  {
    && schedule <= schedule' && Execute(resources, schedule').Some?
    && (ListFails in schedule' ==> ListFails in schedule)
    && Execute(resources, schedule').value.listing == Execute(resources, schedule).value.listing
    && Execute(resources, schedule').value.warmed == Execute(resources, schedule).value.warmed
  }

  lemma Go(resources: set<Resource>, schedule: seq<Step>, step: Step)
    requires Execute(resources, schedule).Some? && Enabled(resources, Execute(resources, schedule).value, step)
    requires !step.List? && !step.ListFails? && !step.WarmUpEnds?
    ensures Continues(resources, schedule, schedule + [step])
    ensures Execute(resources, schedule + [step]) == Some(Do(resources, Execute(resources, schedule).value, step))
  {
    Extend(resources, schedule, step);
  }

  /** An event at work finishes. */
  lemma FinishRun(resources: set<Resource>, schedule: seq<Step>, e: nat) returns (schedule': seq<Step>)
    requires Execute(resources, schedule).Some?
    requires var s := Execute(resources, schedule).value;
             e < |s.events| && Active(s.events[e])
    ensures Continues(resources, schedule, schedule')
    ensures var s := Execute(resources, schedule).value;
            Execute(resources, schedule').value.signedOff == s.signedOff + {s.events[e].resource}
  {
    schedule' := schedule;
    if Execute(resources, schedule).value.events[e].pc.Running? {
      Go(resources, schedule, RunEnds(e));
      schedule' := schedule + [RunEnds(e)];
    }
    Go(resources, schedule', SignOff(e));
    schedule' := schedule' + [SignOff(e)];
  }

  /** A resource nobody has claimed gets an event that claims it. */
  lemma StartRun(resources: set<Resource>, schedule: seq<Step>, r: Resource) returns (schedule': seq<Step>, e: nat)
    requires Execute(resources, schedule).Some? && r in resources
    requires var s := Execute(resources, schedule).value;
             s.warmed && r !in s.claimed
    ensures Continues(resources, schedule, schedule')
    ensures var s, s' := Execute(resources, schedule).value, Execute(resources, schedule').value;
            s'.signedOff == s.signedOff && e < |s'.events| && s'.events[e] == Event(r, Running)
  {
    e := |Execute(resources, schedule).value.events|;
    Go(resources, schedule, Arrive(r));
    schedule' := schedule + [Arrive(r)];
    Go(resources, schedule', Gate(e));
    schedule' := schedule' + [Gate(e)];
    Go(resources, schedule', Claim(e));
    schedule' := schedule' + [Claim(e)];
  }

  lemma SignOffOne(resources: set<Resource>, schedule: seq<Step>, r: Resource) returns (schedule': seq<Step>)
    requires Execute(resources, schedule).Some? && r in resources
    requires var s := Execute(resources, schedule).value;
             s.warmed && r !in s.signedOff
    ensures Continues(resources, schedule, schedule')
    ensures Execute(resources, schedule').value.signedOff == Execute(resources, schedule).value.signedOff + {r}
  {
    ReachableClaims(resources, schedule);
    var s := Execute(resources, schedule).value;
    if r in s.claimed {
      schedule' := FinishRun(resources, schedule, s.claimed[r]);
    } else {
      var e;
      schedule', e := StartRun(resources, schedule, r);
      schedule' := FinishRun(resources, schedule', e);
    }
  }

  lemma {:induction false} SignOffAll(resources: set<Resource>, schedule: seq<Step>) returns (schedule': seq<Step>)
    requires Execute(resources, schedule).Some? && Execute(resources, schedule).value.warmed
    ensures Continues(resources, schedule, schedule') && Execute(resources, schedule').value.signedOff == resources
    decreases resources - Execute(resources, schedule).value.signedOff
  {
    ReachableInv(resources, schedule);
    schedule' := schedule;
    var s := Execute(resources, schedule).value;
    if s.signedOff != resources {
      var r :| r in resources && r !in s.signedOff;
      schedule' := SignOffOne(resources, schedule, r);
      assert resources - (s.signedOff + {r}) < resources - s.signedOff;
      schedule' := SignOffAll(resources, schedule');
    }
  }

  /** Whatever has happened so far, if listing has not failed the pass can be finished and StopChan closed. */
  lemma CanStop(resources: set<Resource>, schedule: seq<Step>) returns (schedule': seq<Step>)
    requires Execute(resources, schedule).Some? && ListFails !in schedule
    ensures schedule <= schedule' && ListFails !in schedule'
    ensures Execute(resources, schedule').Some? && Execute(resources, schedule').value.stopCloses == 1
  {
    schedule' := schedule;
    if Execute(resources, schedule).value.listing.NotListed? {
      Extend(resources, schedule, List);
      schedule' := schedule + [List];
    }
    NoFailedListing(resources, schedule');
    if !Execute(resources, schedule').value.warmed {
      Extend(resources, schedule', WarmUpEnds);
      schedule' := schedule' + [WarmUpEnds];
    }
    schedule' := SignOffAll(resources, schedule');
    RunsOnce(resources, schedule');
    if Execute(resources, schedule').value.stopCloses == 0 {
      Extend(resources, schedule', CloseStop);
      schedule' := schedule' + [CloseStop];
      RunsOnce(resources, schedule');
    }
  }

  // ---------------------------------------------------------------------------------------------
  // What a schedule shows
  // ---------------------------------------------------------------------------------------------

  /** The resources of the events, in the order they arrived. */
  function Arrivals(schedule: seq<Step>): seq<Resource> {
    if schedule == [] then []
    else
      var step := schedule[|schedule| - 1];
      Arrivals(schedule[..|schedule| - 1]) + if step.Arrive? then [step.resource] else []
  }

  /** An event is of the resource that arrived; once it has run it has claimed that. */
  ghost predicate EventShows(schedule: seq<Step>, s: State, e: nat)
    requires |Arrivals(schedule)| == |s.events|
  {
    && (e < |s.events| ==> s.events[e].resource == Arrivals(schedule)[e])
    && (e < |s.events| && s.events[e].pc.Ran? ==> RunEnds(e) in schedule)
    && (RunEnds(e) in schedule ==>
          e < |s.events| && s.events[e].resource in s.claimed && s.claimed[s.events[e].resource] == e)
    && (SignOff(e) in schedule ==> RunEnds(e) in schedule)
  }

  ghost predicate SignedOffIn(schedule: seq<Step>, r: Resource) {
    exists e: nat :: e < |Arrivals(schedule)| && Arrivals(schedule)[e] == r && SignOff(e) in schedule
  }

  ghost predicate Shows(schedule: seq<Step>, s: State) {
    && |Arrivals(schedule)| == |s.events|
    && (forall e: nat :: EventShows(schedule, s, e))
    && (forall r :: r in s.signedOff ==> SignedOffIn(schedule, r))
    && (CloseStop in schedule <==> s.watcher.Closed?)
  }

  lemma ArrivalsMore(schedule: seq<Step>, step: Step)
    ensures Arrivals(schedule + [step]) == Arrivals(schedule) + if step.Arrive? then [step.resource] else []
    ensures forall x :: x in schedule + [step] <==> x in schedule || x == step
  {
    assert (schedule + [step])[..|schedule|] == schedule;
  }

  lemma SignedOffShows(resources: set<Resource>, schedule: seq<Step>, s: State, step: Step, r: Resource)
    requires Shows(schedule, s) && Enabled(resources, s, step) && r in Do(resources, s, step).signedOff
    ensures SignedOffIn(schedule + [step], r)
  {
    ArrivalsMore(schedule, step);
    if r in s.signedOff {
      var e: nat :| e < |Arrivals(schedule)| && Arrivals(schedule)[e] == r && SignOff(e) in schedule;
      assert Arrivals(schedule + [step])[e] == r && SignOff(e) in schedule + [step];
    } else {
      assert EventShows(schedule, s, step.event);
      assert Arrivals(schedule + [step])[step.event] == r;
    }
  }

  lemma EventStillShows(resources: set<Resource>, schedule: seq<Step>, s: State, step: Step, e: nat)
    requires EventsInv(s, resources) && |Arrivals(schedule)| == |s.events| && Enabled(resources, s, step)
    requires EventShows(schedule, s, e)
    ensures |Arrivals(schedule + [step])| == |Do(resources, s, step).events|
    ensures EventShows(schedule + [step], Do(resources, s, step), e)
  {
    ArrivalsMore(schedule, step);
    if e < |s.events| {
      assert EventInv(s.events[e], e, resources, s.claimed, s.signedOff);
    }
  }

  lemma StepShows(resources: set<Resource>, schedule: seq<Step>, s: State, step: Step)
    requires Inv(resources, s) && Shows(schedule, s) && Enabled(resources, s, step)
    ensures Shows(schedule + [step], Do(resources, s, step))
  {
    ArrivalsMore(schedule, step);
    EventStillShows(resources, schedule, s, step, 0);
    forall e: nat ensures EventShows(schedule + [step], Do(resources, s, step), e) {
      EventStillShows(resources, schedule, s, step, e);
    }
    forall r | r in Do(resources, s, step).signedOff ensures SignedOffIn(schedule + [step], r) {
      SignedOffShows(resources, schedule, s, step, r);
    }
  }

  lemma InitShows()
    ensures Shows([], Init())
  {
  }

  lemma ShowsNext(resources: set<Resource>, schedule: seq<Step>, s: State)
    requires schedule != [] && Inv(resources, s) && Shows(schedule[..|schedule| - 1], s)
    requires Enabled(resources, s, schedule[|schedule| - 1])
    ensures Shows(schedule, Do(resources, s, schedule[|schedule| - 1]))
  {
    var before, step := schedule[..|schedule| - 1], schedule[|schedule| - 1];
    StepShows(resources, before, s, step);
    assert before + [step] == schedule;
  }

  lemma {:induction false} RunShows(resources: set<Resource>, schedule: seq<Step>)
    requires Execute(resources, schedule).Some?
    ensures Shows(schedule, Execute(resources, schedule).value)
  {
    if schedule == [] {
      InitShows();
    } else {
      var before := schedule[..|schedule| - 1];
      RunShows(resources, before);
      ReachableInv(resources, before);
      ShowsNext(resources, schedule, Execute(resources, before).value);
    }
  }

  /** No two events of one resource are run. */
  lemma OneRunEach(resources: set<Resource>, schedule: seq<Step>, e: nat, f: nat)
    requires Execute(resources, schedule).Some? && e != f && RunEnds(e) in schedule && RunEnds(f) in schedule
    ensures e < |Arrivals(schedule)| && f < |Arrivals(schedule)| && Arrivals(schedule)[e] != Arrivals(schedule)[f]
  {
    RunShows(resources, schedule);
    assert EventShows(schedule, Execute(resources, schedule).value, e);
    assert EventShows(schedule, Execute(resources, schedule).value, f);
  }

  /** StopChan is closed by the watcher only after an event of every resource was run and signed off. */
  lemma StopsAfterAll(resources: set<Resource>, schedule: seq<Step>, r: Resource) returns (e: nat)
    requires Execute(resources, schedule).Some? && CloseStop in schedule && r in resources
    ensures e < |Arrivals(schedule)| && Arrivals(schedule)[e] == r
    ensures RunEnds(e) in schedule && SignOff(e) in schedule
  {
    RunShows(resources, schedule);
    ReachableInv(resources, schedule);
    SignedOffSize(Execute(resources, schedule).value, resources);
    assert SignedOffIn(schedule, r);
    e :| e < |Arrivals(schedule)| && Arrivals(schedule)[e] == r && SignOff(e) in schedule;
    assert EventShows(schedule, Execute(resources, schedule).value, e);
  }
}

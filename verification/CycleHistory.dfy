/**
 The update cycle told by its history (reconcile.go, types.go, update.go). Which steps may follow which is said by what
 has happened so far, without program counters or counters, and so is what the totals add up to and who opens a pull
 request. The state machine does exactly that.
 */
module CycleHistory {
  import opened Options
  import opened UpdateCycle

  // ---------------------------------------------------------------------------------------------
  // What has happened
  // ---------------------------------------------------------------------------------------------

  predicate IsStart(step: Step) {
    step.Acquire? || step.AcquireFails?
  }

  /** How many applications the main loop has passed. */
  function Starts(h: seq<Step>): nat {
    if h == [] then 0 else Starts(h[..|h| - 1]) + if IsStart(h[|h| - 1]) then 1 else 0
  }

  /** How many places of the semaphore are taken. */
  function Taken(h: seq<Step>): int {
    if h == [] then 0
    else Taken(h[..|h| - 1]) + if h[|h| - 1].Acquire? then 1 else if h[|h| - 1].Release? then -1 else 0
  }

  /** The last step of an application; the main loop starts them in order. */
  function Last(h: seq<Step>, i: nat): Option<Step> {
    if h == [] then None
    else
      var before, step := h[..|h| - 1], h[|h| - 1];
      if IsStart(step) then if Starts(before) == i then Some(step) else Last(before, i)
      else if !step.Cancel? && step.app == i then Some(step)
      else Last(before, i)
  }

  /** An application has asked for the pull request of a write-back target. */
  predicate Asked(c: Cycle, h: seq<Step>, key: string) {
    exists i :: 0 <= i < |c.apps| && c.apps[i].prKey == Some(key) && CheckPR(i) in h
  }

  /** An application that asked may commit: it needs no pull request, or was the first to ask for its target. */
  predicate WentOn(c: Cycle, h: seq<Step>, i: nat)
    requires i < |c.apps|
  {
    h != [] &&
    var before := h[..|h| - 1];
    if h[|h| - 1] == CheckPR(i) then c.apps[i].prKey.None? || !Asked(c, before, c.apps[i].prKey.value)
    else WentOn(c, before, i)
  }

  /** An application holds the mutex of its repository: it has locked it and not unlocked it. */
  predicate Holds(c: Cycle, h: seq<Step>, i: nat)
    requires i < |c.apps|
  {
    c.apps[i].requiresLocking && Last(h, i).Some? &&
    (Last(h, i).value.Lock? || Last(h, i).value.CheckPR? || Last(h, i).value.Commit?)
  }

  /** A step may follow what has happened. */
  predicate May(c: Cycle, h: seq<Step>, step: Step) {
    match step
    case Cancel => Cancel !in h
    case Acquire => Starts(h) < |c.apps| && Taken(h) < c.concurrency
    case AcquireFails => Starts(h) < |c.apps| && Cancel in h
    case EnterCommit(i) => i < |c.apps| && Last(h, i) == Some(Acquire)
    case Lock(i) =>
      && i < |c.apps| && c.apps[i].requiresLocking && Last(h, i) == Some(EnterCommit(i))
      && forall j :: 0 <= j < |c.apps| && c.apps[j].gitRepo == c.apps[i].gitRepo ==> !Holds(c, h, j)
    case CheckPR(i) =>
      i < |c.apps| && Last(h, i) == Some(if c.apps[i].requiresLocking then Lock(i) else EnterCommit(i))
    case Commit(i) => i < |c.apps| && Last(h, i) == Some(CheckPR(i)) && WentOn(c, h, i)
    case Unlock(i) =>
      i < |c.apps| && (Last(h, i) == Some(Commit(i)) || (Last(h, i) == Some(CheckPR(i)) && !WentOn(c, h, i)))
    case Return(i, _) => i < |c.apps| && (Last(h, i) == Some(Acquire) || Last(h, i) == Some(Unlock(i)))
    case Record(i) => i < |c.apps| && Last(h, i).Some? && Last(h, i).value.Return?
    case SignOff(i) => i < |c.apps| && Last(h, i) == Some(Record(i))
    case Release(i) => i < |c.apps| && Last(h, i) == Some(SignOff(i))
  }

  predicate Legal(c: Cycle, schedule: seq<Step>) {
    schedule == [] ||
    (Legal(c, schedule[..|schedule| - 1]) && May(c, schedule[..|schedule| - 1], schedule[|schedule| - 1]))
  }

  // ---------------------------------------------------------------------------------------------
  // The state machine does what its history says
  // ---------------------------------------------------------------------------------------------

  /** Where an application is, by its history. */
  predicate PcIs(c: Cycle, h: seq<Step>, i: nat, pc: Pc)
    requires i < |c.apps|
  {
    var last := Last(h, i);
    if last.None? then pc.Pending?
    else
      match last.value
      case Cancel => false
      case Acquire => pc.Updating?
      case AcquireFails => pc.GaveUp?
      case EnterCommit(_) => if c.apps[i].requiresLocking then pc.Locking? else pc.InCommit?
      case Lock(_) => pc.InCommit? && c.apps[i].requiresLocking
      case CheckPR(_) => if WentOn(c, h, i) then pc.Committing? else pc.Unlocking?
      case Commit(_) => pc.Unlocking?
      case Unlock(_) => pc.Committed?
      case Return(_, r) => pc == Updated(r)
      case Record(_) => pc.Recorded?
      case SignOff(_) => pc.SignedOff?
      case Release(_) => pc.Finished?
  }

  predicate OwnStep(h: seq<Step>, i: nat) {
    var last := Last(h, i);
    last.Some? && !last.value.Cancel? && !IsStart(last.value) ==> last.value.app == i
  }

  ghost predicate Mirrors(c: Cycle, h: seq<Step>, s: State) {
    && WellFormed(c, s)
    && s.next == Starts(h) && s.semFree == c.concurrency - Taken(h) && (s.cancelled <==> Cancel in h)
    && (forall key :: key in s.prCreated <==> Asked(c, h, key))
    && (forall i :: 0 <= i < |c.apps| ==> PcIs(c, h, i, s.pcs[i]) && OwnStep(h, i))
  }

  /** The mutex of a repository is taken exactly if an application holds it. */
  lemma TakenIfHeld(c: Cycle, h: seq<Step>, s: State, i: nat)
    requires Inv(c, s) && Mirrors(c, h, s) && i < |c.apps| && s.pcs[i].Locking?
    ensures s.pcs[i].mutex in s.mutexHolder <==>
            exists j :: 0 <= j < |c.apps| && c.apps[j].gitRepo == c.apps[i].gitRepo && Holds(c, h, j)
  {
    assert MutexOf(c.apps[i], s.pcs[i], i, s.repositoryLocks, s.mutexHolder);
    if s.pcs[i].mutex in s.mutexHolder {
      var j := s.mutexHolder[s.pcs[i].mutex];
      assert HeldBy(s.pcs, s.pcs[i].mutex, j);
      assert MutexOf(c.apps[j], s.pcs[j], j, s.repositoryLocks, s.mutexHolder);
      assert PcIs(c, h, j, s.pcs[j]);
      assert Holds(c, h, j);
    }
    forall j | 0 <= j < |c.apps| && c.apps[j].gitRepo == c.apps[i].gitRepo && Holds(c, h, j)
      ensures s.pcs[i].mutex in s.mutexHolder
    {
      assert PcIs(c, h, j, s.pcs[j]);
      assert MutexOf(c.apps[j], s.pcs[j], j, s.repositoryLocks, s.mutexHolder);
    }
  }

  lemma AppStepIfMay(c: Cycle, h: seq<Step>, s: State, step: Step)
    requires WellFormed(c, s) && !step.Cancel? && !IsStart(step) && !step.Lock? && step.app < |c.apps|
    requires PcIs(c, h, step.app, s.pcs[step.app]) && OwnStep(h, step.app)
    ensures Enabled(c, s, step) <==> May(c, h, step)
  {
    match Last(h, step.app)
    case None =>
    case Some(last) =>
      match last {
        case Cancel => case Acquire => case AcquireFails => case EnterCommit(_) => case Lock(_) => case CheckPR(_) =>
        case Commit(_) => case Unlock(_) => case Return(_, _) => case Record(_) => case SignOff(_) => case Release(_) =>
      }
  }

  lemma LockIfMay(c: Cycle, h: seq<Step>, s: State, i: nat)
    requires Inv(c, s) && Mirrors(c, h, s) && i < |c.apps|
    ensures Enabled(c, s, Lock(i)) <==> May(c, h, Lock(i))
  {
    assert PcIs(c, h, i, s.pcs[i]) && OwnStep(h, i);
    if s.pcs[i].Locking? {
      TakenIfHeld(c, h, s, i);
    }
  }

  /** A step is enabled exactly if it may follow what has happened. */
  lemma EnabledIfMay(c: Cycle, h: seq<Step>, s: State, step: Step)
    requires Inv(c, s) && Mirrors(c, h, s)
    ensures Enabled(c, s, step) <==> May(c, h, step)
  {
    if !step.Cancel? && !IsStart(step) && step.app < |c.apps| {
      if step.Lock? {
        LockIfMay(c, h, s, step.app);
      } else {
        assert PcIs(c, h, step.app, s.pcs[step.app]) && OwnStep(h, step.app);
        AppStepIfMay(c, h, s, step);
      }
    }
  }

  /** The application a step moves is where its history says. */
  lemma MoverMirrors(c: Cycle, h: seq<Step>, s: State, step: Step)
    requires WellFormed(c, s) && Enabled(c, s, step) && !step.Cancel? && s.next == Starts(h)
    requires Mover(s, step) < |c.apps| && PcIs(c, h, Mover(s, step), s.pcs[Mover(s, step)])
    requires forall key :: key in s.prCreated <==> Asked(c, h, key)
    requires step.Lock? ==> c.apps[step.app].requiresLocking
    ensures PcIs(c, h + [step], Mover(s, step), NextPc(c, s, step)) && OwnStep(h + [step], Mover(s, step))
  {
    var h' := h + [step];
    assert h'[..|h'| - 1] == h;
  }

  /** And no other has moved. */
  lemma OthersMirror(c: Cycle, h: seq<Step>, s: State, step: Step, i: nat)
    requires WellFormed(c, s) && Enabled(c, s, step) && s.next == Starts(h) && i < |c.apps|
    requires step.Cancel? || Mover(s, step) != i
    requires PcIs(c, h, i, s.pcs[i]) && OwnStep(h, i)
    ensures PcIs(c, h + [step], i, s.pcs[i]) && OwnStep(h + [step], i)
  {
    var h' := h + [step];
    assert h'[..|h'| - 1] == h;
  }

  lemma StepMoves(c: Cycle, h: seq<Step>, s: State, step: Step, i: nat)
    requires Inv(c, s) && Mirrors(c, h, s) && Enabled(c, s, step) && i < |c.apps|
    ensures PcIs(c, h + [step], i, Do(c, s, step).pcs[i]) && OwnStep(h + [step], i)
  {
    assert PcIs(c, h, i, s.pcs[i]) && OwnStep(h, i);
    if !step.Cancel? {
      DoMoves(c, s, step);
    }
    if step.Cancel? || Mover(s, step) != i {
      OthersMirror(c, h, s, step, i);
    } else {
      MoverMirrors(c, h, s, step);
    }
  }

  lemma AskedMore(c: Cycle, h: seq<Step>, step: Step, key: string)
    ensures Asked(c, h + [step], key) <==>
            Asked(c, h, key) || (step.CheckPR? && step.app < |c.apps| && c.apps[step.app].prKey == Some(key))
  {
    if Asked(c, h, key) {
      var i :| 0 <= i < |c.apps| && c.apps[i].prKey == Some(key) && CheckPR(i) in h;
      assert CheckPR(i) in h + [step];
    }
  }

  lemma CountersMirror(c: Cycle, h: seq<Step>, s: State, step: Step)
    requires WellFormed(c, s) && Enabled(c, s, step)
    requires s.next == Starts(h) && s.semFree == c.concurrency - Taken(h) && (s.cancelled <==> Cancel in h)
    ensures var h', s' := h + [step], Do(c, s, step);
            s'.next == Starts(h') && s'.semFree == c.concurrency - Taken(h') && (s'.cancelled <==> Cancel in h')
  {
    var h' := h + [step];
    assert h'[..|h'| - 1] == h;
  }

  lemma KeyMirrors(c: Cycle, h: seq<Step>, s: State, step: Step, key: string)
    requires WellFormed(c, s) && Enabled(c, s, step) && (key in s.prCreated <==> Asked(c, h, key))
    ensures key in Do(c, s, step).prCreated <==> Asked(c, h + [step], key)
  {
    AskedMore(c, h, step, key);
  }

  lemma StepMirrors(c: Cycle, h: seq<Step>, s: State, step: Step)
    requires Inv(c, s) && Mirrors(c, h, s) && Enabled(c, s, step)
    ensures Mirrors(c, h + [step], Do(c, s, step))
  {
    var h', s' := h + [step], Do(c, s, step);
    CountersMirror(c, h, s, step);
    forall key ensures key in s'.prCreated <==> Asked(c, h', key) {
      KeyMirrors(c, h, s, step, key);
    }
    forall i | 0 <= i < |c.apps| ensures PcIs(c, h', i, s'.pcs[i]) && OwnStep(h', i) {
      StepMoves(c, h, s, step, i);
    }
  }

  lemma {:induction false} RunMirrors(c: Cycle, schedule: seq<Step>)
    requires Execute(c, schedule).Some?
    ensures Mirrors(c, schedule, Execute(c, schedule).value)
  {
    if schedule != [] {
      var before, step := schedule[..|schedule| - 1], schedule[|schedule| - 1];
      RunMirrors(c, before);
      ReachableInv(c, before);
      StepMirrors(c, before, Execute(c, before).value, step);
      assert before + [step] == schedule;
    }
  }

  /** The schedules of the state machine are exactly those that are legal by their history. */
  lemma {:induction false} RunsIfLegal(c: Cycle, schedule: seq<Step>)
    ensures Execute(c, schedule).Some? <==> Legal(c, schedule)
  {
    if schedule != [] {
      var before, step := schedule[..|schedule| - 1], schedule[|schedule| - 1];
      RunsIfLegal(c, before);
      if Execute(c, before).Some? {
        RunMirrors(c, before);
        ReachableInv(c, before);
        EnabledIfMay(c, before, Execute(c, before).value, step);
      }
    }
  }

  // ---------------------------------------------------------------------------------------------
  // What the totals add up to
  // ---------------------------------------------------------------------------------------------

  /** The applications whose result was recorded. */
  function RecordedIn(h: seq<Step>): set<nat> {
    set step | step in h && step.Record? :: step.app
  }

  /** The results that UpdateApplication returned for some applications, added up. */
  function Returned(q: Quantity, h: seq<Step>, apps: set<nat>): nat {
    if h == [] then 0
    else
      var step := h[|h| - 1];
      Returned(q, h[..|h| - 1], apps) + if step.Return? && step.app in apps then Amount(q, step.result) else 0
  }

  lemma {:induction false} ReturnedMore(q: Quantity, h: seq<Step>, apps: set<nat>, i: nat)
    requires i !in apps
    ensures Returned(q, h, apps + {i}) == Returned(q, h, apps) + Returned(q, h, {i})
  {
    if h != [] {
      ReturnedMore(q, h[..|h| - 1], apps, i);
    }
  }

  predicate HasReturned(pc: Pc) {
    pc.Updated? || IsRecorded(pc)
  }

  predicate IsRecorded(pc: Pc) {
    pc.Recorded? || pc.SignedOff? || pc.Finished?
  }

  /** Each application returns one result at most, and that is the one it carries. */
  ghost predicate Carries(c: Cycle, h: seq<Step>, s: State) {
    && WellFormed(c, s)
    && (forall i {:trigger s.pcs[i]} :: 0 <= i < |c.apps| ==> (i in RecordedIn(h) <==> IsRecorded(s.pcs[i])))
    && (forall i :: i in RecordedIn(h) ==> i < |c.apps|)
    && (forall q, i {:trigger Returned(q, h, {i})} :: 0 <= i < |c.apps| ==>
          Returned(q, h, {i}) == if HasReturned(s.pcs[i]) then Amount(q, s.pcs[i].result) else 0)
    && (forall q :: TotalAmount(q, s.totals) == Returned(q, h, RecordedIn(h)))
  }

  lemma RecordedMore(h: seq<Step>, step: Step)
    ensures RecordedIn(h + [step]) == if step.Record? then RecordedIn(h) + {step.app} else RecordedIn(h)
  {
    assert forall x :: x in h + [step] <==> x in h || x == step;
  }

  lemma ReturnedNext(q: Quantity, h: seq<Step>, step: Step, apps: set<nat>)
    ensures Returned(q, h + [step], apps) ==
            Returned(q, h, apps) + if step.Return? && step.app in apps then Amount(q, step.result) else 0
  {
    assert (h + [step])[..|h|] == h;
  }

  lemma TotalsCarry(c: Cycle, h: seq<Step>, s: State, step: Step, q: Quantity)
    requires Carries(c, h, s) && Enabled(c, s, step)
    ensures TotalAmount(q, Do(c, s, step).totals) == Returned(q, h + [step], RecordedIn(h + [step]))
  {
    RecordedMore(h, step);
    ReturnedNext(q, h, step, RecordedIn(h + [step]));
    assert step.Return? ==> !IsRecorded(s.pcs[step.app]);
    if step.Record? {
      assert !IsRecorded(s.pcs[step.app]);
      ReturnedMore(q, h, RecordedIn(h), step.app);
      ResultAdds(q, s.totals, s.pcs[step.app].result);
    }
  }

  lemma ResultCarries(c: Cycle, h: seq<Step>, s: State, step: Step, i: nat)
    requires Carries(c, h, s) && OrderInv(s.next, s.pcs) && Enabled(c, s, step) && i < |c.apps|
    ensures var pc := Do(c, s, step).pcs[i];
            && (i in RecordedIn(h + [step]) <==> IsRecorded(pc))
            && forall q {:trigger Returned(q, h + [step], {i})} ::
                 Returned(q, h + [step], {i}) == if HasReturned(pc) then Amount(q, pc.result) else 0
  {
    RecordedMore(h, step);
    assert i in RecordedIn(h) <==> IsRecorded(s.pcs[i]);
    if !step.Cancel? {
      DoMoves(c, s, step);
    }
    forall q ensures Returned(q, h + [step], {i}) == Returned(q, h, {i}) +
                     if step.Return? && step.app == i then Amount(q, step.result) else 0 {
      ReturnedNext(q, h, step, {i});
    }
  }

  lemma StepCarries(c: Cycle, h: seq<Step>, s: State, step: Step)
    requires Carries(c, h, s) && OrderInv(s.next, s.pcs) && Enabled(c, s, step)
    ensures Carries(c, h + [step], Do(c, s, step))
  {
    RecordedMore(h, step);
    forall q ensures TotalAmount(q, Do(c, s, step).totals) == Returned(q, h + [step], RecordedIn(h + [step])) {
      TotalsCarry(c, h, s, step, q);
    }
    forall i: nat | i < |c.apps|
      ensures i in RecordedIn(h + [step]) <==> IsRecorded(Do(c, s, step).pcs[i])
    {
      ResultCarries(c, h, s, step, i);
    }
    forall q, i: nat | i < |c.apps|
      ensures var pc := Do(c, s, step).pcs[i];
              Returned(q, h + [step], {i}) == if HasReturned(pc) then Amount(q, pc.result) else 0
    {
      ResultCarries(c, h, s, step, i);
    }
  }

  lemma {:induction false} RunCarries(c: Cycle, schedule: seq<Step>)
    requires Execute(c, schedule).Some?
    ensures Carries(c, schedule, Execute(c, schedule).value)
  {
    if schedule != [] {
      var before, step := schedule[..|schedule| - 1], schedule[|schedule| - 1];
      RunCarries(c, before);
      ReachableInv(c, before);
      StepCarries(c, before, Execute(c, before).value, step);
      assert before + [step] == schedule;
    }
  }

  /**
   In every schedule each total is the sum of what UpdateApplication returned for the applications recorded so far:
   the counters, the number of applications, and how often any change is listed.
   */
  lemma TotalsOfReturns(c: Cycle, schedule: seq<Step>, q: Quantity)
    requires Execute(c, schedule).Some?
    ensures TotalAmount(q, Execute(c, schedule).value.totals) == Returned(q, schedule, RecordedIn(schedule))
  {
    RunCarries(c, schedule);
  }

  /** The applications for which UpdateApplication returned. */
  function ReturnedIn(h: seq<Step>): set<nat> {
    set step | step in h && step.Return? :: step.app
  }

  lemma {:induction false} ReturnedIfAny(h: seq<Step>, i: nat)
    ensures Returned(Processed, h, {i}) > 0 <==> i in ReturnedIn(h)
  {
    if h != [] {
      var before, step := h[..|h| - 1], h[|h| - 1];
      ReturnedIfAny(before, i);
      assert h == before + [step];
      assert forall x :: x in h <==> x in before || x == step;
    }
  }

  /**
   Once the cycle is over, every result that was returned is in the totals, and every application has returned one or
   could not be started.
   */
  lemma EveryReturnCounts(c: Cycle, schedule: seq<Step>)
    requires Execute(c, schedule).Some? && Done(c, Execute(c, schedule).value)
    ensures RecordedIn(schedule) == ReturnedIn(schedule)
    ensures forall q :: TotalAmount(q, Execute(c, schedule).value.totals) == Returned(q, schedule, ReturnedIn(schedule))
    ensures forall i :: 0 <= i < |c.apps| ==> (i in ReturnedIn(schedule) <==> Last(schedule, i) != Some(AcquireFails))
  {
    var s := Execute(c, schedule).value;
    RunCarries(c, schedule);
    RunMirrors(c, schedule);
    Conservation(c, schedule);
    forall i: nat ensures i in RecordedIn(schedule) <==> i in ReturnedIn(schedule) {
      ReturnedIfAny(schedule, i);
      if i < |c.apps| {
        assert s.pcs[i].GaveUp? || HasResult(s.pcs[i]);
        assert PcIs(c, schedule, i, s.pcs[i]);
      } else {
        NoReturn(c, schedule, i);
      }
    }
    forall i | 0 <= i < |c.apps| ensures i in ReturnedIn(schedule) <==> Last(schedule, i) != Some(AcquireFails) {
      ReturnedIfAny(schedule, i);
      assert PcIs(c, schedule, i, s.pcs[i]);
      assert s.pcs[i].GaveUp? || HasResult(s.pcs[i]);
    }
  }

  lemma {:induction false} NoReturn(c: Cycle, schedule: seq<Step>, i: nat)
    requires Execute(c, schedule).Some? && i >= |c.apps|
    ensures i !in ReturnedIn(schedule)
  {
    if schedule != [] {
      NoReturn(c, schedule[..|schedule| - 1], i);
    }
  }

  // ---------------------------------------------------------------------------------------------
  // Mutual exclusion and pull requests
  // ---------------------------------------------------------------------------------------------

  lemma {:induction false} StartedIfMoved(c: Cycle, h: seq<Step>, i: nat)
    requires Legal(c, h) && Last(h, i).Some?
    ensures i < Starts(h)
  {
    var before := h[..|h| - 1];
    if Last(before, i).Some? {
      StartedIfMoved(c, before, i);
    }
  }

  /** From locking to unlocking, an application holds the mutex of its repository. */
  lemma {:induction false} HeldSince(c: Cycle, h: seq<Step>, i: nat, a: nat)
    requires Legal(c, h) && i < |c.apps| && a < |h| && h[a] == Lock(i) && Unlock(i) !in h[a..]
    ensures Holds(c, h, i)
  {
    var before, step := h[..|h| - 1], h[|h| - 1];
    if a < |before| {
      assert Unlock(i) !in before[a..] && step in h[a..];
      HeldSince(c, before, i, a);
      StartedIfMoved(c, before, i);
    }
  }

  /** Between two locks of one repository by different applications, the first has unlocked it. */
  lemma Excluded(c: Cycle, schedule: seq<Step>, i: nat, j: nat, a: nat, b: nat)
    requires Execute(c, schedule).Some? && i < |c.apps| && j < |c.apps| && c.apps[i].gitRepo == c.apps[j].gitRepo
    requires a < b < |schedule| && schedule[a] == Lock(i) && schedule[b] == Lock(j)
    ensures Unlock(i) in schedule[a..b]
  {
    RunsIfLegal(c, schedule);
    LegalPrefix(c, schedule, b + 1);
    var h := schedule[..b + 1];
    assert h[..|h| - 1] == schedule[..b] && schedule[..b][a..] == schedule[a..b];
    if Unlock(i) !in schedule[a..b] {
      HeldSince(c, schedule[..b], i, a);
    }
  }

  lemma {:induction false} LegalPrefix(c: Cycle, h: seq<Step>, n: nat)
    requires Legal(c, h) && n <= |h|
    ensures Legal(c, h[..n])
  {
    if n < |h| {
      LegalPrefix(c, h[..|h| - 1], n);
      assert h[..|h| - 1][..n] == h[..n];
    } else {
      assert h[..n] == h;
    }
  }

  /** Every commit of an application that needs the mutex of its repository is made while it holds it. */
  lemma CommitsUnderLock(c: Cycle, schedule: seq<Step>, i: nat, b: nat)
    requires Execute(c, schedule).Some? && b < |schedule| && schedule[b] == Commit(i)
    ensures i < |c.apps| && (c.apps[i].requiresLocking ==> Holds(c, schedule[..b], i))
  {
    RunsIfLegal(c, schedule);
    LegalPrefix(c, schedule, b + 1);
    var h := schedule[..b + 1];
    assert h[..|h| - 1] == schedule[..b];
  }

  /** An application was the first to ask for its target, at place `a`. */
  predicate AskedFirst(c: Cycle, h: seq<Step>, i: nat, a: nat)
    requires i < |c.apps|
  {
    a < |h| && h[a] == CheckPR(i) && (c.apps[i].prKey.Some? ==> !Asked(c, h[..a], c.apps[i].prKey.value))
  }

  lemma {:induction false} WentOnIfFirst(c: Cycle, h: seq<Step>, i: nat) returns (a: nat)
    requires i < |c.apps| && WentOn(c, h, i)
    ensures AskedFirst(c, h, i, a)
  {
    var before := h[..|h| - 1];
    a := |before|;
    if h[a] != CheckPR(i) {
      a := WentOnIfFirst(c, before, i);
      assert before[..a] == h[..a];
    }
  }

  /** Whoever commits needed no pull request or was the first to ask for it. */
  lemma {:induction false} CommitterAskedFirst(c: Cycle, h: seq<Step>, i: nat) returns (a: nat)
    requires Legal(c, h) && i < |c.apps| && Commit(i) in h
    ensures AskedFirst(c, h, i, a)
  {
    var before := h[..|h| - 1];
    if h[|before|] == Commit(i) {
      a := WentOnIfFirst(c, before, i);
    } else {
      assert h == before + [h[|before|]];
      a := CommitterAskedFirst(c, before, i);
    }
    assert before[..a] == h[..a];
  }

  /** No two applications commit with a pull request for one write-back target. */
  lemma OnePullRequest(c: Cycle, schedule: seq<Step>, i: nat, j: nat)
    requires Execute(c, schedule).Some? && i < |c.apps| && j < |c.apps| && i != j
    requires Commit(i) in schedule && Commit(j) in schedule && c.apps[i].prKey.Some?
    ensures c.apps[i].prKey != c.apps[j].prKey
  {
    RunsIfLegal(c, schedule);
    var a := CommitterAskedFirst(c, schedule, i);
    var b := CommitterAskedFirst(c, schedule, j);
    if a < b {
      assert schedule[..b][a] == CheckPR(i);
    } else {
      assert schedule[..a][b] == CheckPR(j);
    }
  }

  /** Whoever may go on commits before it unlocks. */
  lemma {:induction false} GoesOnToCommit(c: Cycle, h: seq<Step>, i: nat)
    requires Legal(c, h) && i < |c.apps| && WentOn(c, h, i)
    ensures Last(h, i).Some? && (Last(h, i) == Some(CheckPR(i)) || Commit(i) in h)
  {
    var before, step := h[..|h| - 1], h[|h| - 1];
    assert h == before + [step];
    if step != CheckPR(i) {
      GoesOnToCommit(c, before, i);
      StartedIfMoved(c, before, i);
    }
  }

  lemma {:induction false} FirstAsker(c: Cycle, h: seq<Step>, key: string) returns (i: nat)
    requires Legal(c, h) && Asked(c, h, key)
    ensures i < |c.apps| && c.apps[i].prKey == Some(key) && WentOn(c, h, i)
  {
    var before, step := h[..|h| - 1], h[|h| - 1];
    assert h == before + [step];
    if Asked(c, before, key) {
      i := FirstAsker(c, before, key);
      if step == CheckPR(i) {
        assert CheckPR(i) in before by { var _ := WentOnIfFirst(c, before, i); }
        PastAsking(c, before, i);
      }
    } else {
      AskedMore(c, before, step, key);
      i := step.app;
    }
  }

  /** An application that has asked does not ask again. */
  lemma {:induction false} PastAsking(c: Cycle, h: seq<Step>, i: nat)
    requires Legal(c, h) && CheckPR(i) in h
    ensures Last(h, i).Some? && !IsStart(Last(h, i).value) && !Last(h, i).value.EnterCommit? && !Last(h, i).value.Lock?
  {
    var before, step := h[..|h| - 1], h[|h| - 1];
    assert h == before + [step];
    if step != CheckPR(i) {
      PastAsking(c, before, i);
      StartedIfMoved(c, before, i);
    }
  }

  /** Once the cycle is over, one application has committed for every target that was asked for. */
  lemma SomeoneCommits(c: Cycle, schedule: seq<Step>, key: string) returns (i: nat)
    requires Execute(c, schedule).Some? && Done(c, Execute(c, schedule).value) && Asked(c, schedule, key)
    ensures i < |c.apps| && c.apps[i].prKey == Some(key) && Commit(i) in schedule
  {
    RunsIfLegal(c, schedule);
    i := FirstAsker(c, schedule, key);
    GoesOnToCommit(c, schedule, i);
    OverIsPast(c, schedule, i);
  }

  lemma OverIsPast(c: Cycle, schedule: seq<Step>, i: nat)
    requires Execute(c, schedule).Some? && Done(c, Execute(c, schedule).value) && i < |c.apps|
    ensures Last(schedule, i) != Some(CheckPR(i))
  {
    var s := Execute(c, schedule).value;
    RunMirrors(c, schedule);
    Conservation(c, schedule);
    assert s.pcs[i].GaveUp? || HasResult(s.pcs[i]);
    assert PcIs(c, schedule, i, s.pcs[i]);
  }

  /** And so has every application that asked and needs no pull request. */
  lemma CommitsWithoutPullRequest(c: Cycle, schedule: seq<Step>, i: nat)
    requires Execute(c, schedule).Some? && Done(c, Execute(c, schedule).value) && i < |c.apps|
    requires CheckPR(i) in schedule && c.apps[i].prKey.None?
    ensures Commit(i) in schedule
  {
    RunsIfLegal(c, schedule);
    WentOnAlways(c, schedule, i);
    GoesOnToCommit(c, schedule, i);
    OverIsPast(c, schedule, i);
  }

  lemma {:induction false} WentOnAlways(c: Cycle, h: seq<Step>, i: nat)
    requires i < |c.apps| && CheckPR(i) in h && c.apps[i].prKey.None?
    ensures WentOn(c, h, i)
  {
    var before, step := h[..|h| - 1], h[|h| - 1];
    assert h == before + [step];
    if step != CheckPR(i) {
      WentOnAlways(c, before, i);
    }
  }
}

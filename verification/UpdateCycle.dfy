/**
 One update cycle as a concurrent protocol (reconcile.go, types.go, update.go).

 The main loop acquires the semaphore once per application and starts a goroutine for each; the
 goroutines commit under lazily created per-repository mutexes, claim write-back targets, add their
 result to the shared totals and sign off from the WaitGroup. `Enabled` and `Do` give the atomic
 steps; a schedule is any sequence of enabled steps. `Inv` is what every step keeps.
 */
module UpdateCycle {
  import opened Options
  import opened Sequences

  /** What RunImageUpdater knows of an application that matters to the protocol. */
  datatype App = App(
    gitRepo: string,
    requiresLocking: bool,
    // The write-back target key, when the application opens pull requests.
    prKey: Option<string>)

  datatype Change = Change(image: string, oldTag: string, newTag: string)

  /** The result of UpdateApplication for one application. */
  datatype Result = Result(errors: nat, considered: nat, updated: nat, skipped: nat, changes: seq<Change>)

  /** The result of the cycle while it is being accumulated. */
  datatype Totals = Totals(
    processed: nat, errors: nat, considered: nat, updated: nat, skipped: nat, changes: seq<Change>)

  /** The applications in the order the main loop happens to visit them, and the semaphore's weight. */
  datatype Cycle = Cycle(apps: seq<App>, concurrency: nat)

  datatype Pc =
    | Pending                         // not reached by the main loop
    | GaveUp                          // the semaphore could not be acquired
    | Updating                        // inside UpdateApplication, before any commit
    | Locking(mutex: nat)             // has looked up the repository's mutex and waits to lock it
    | InCommit(held: Option<nat>)     // inside commitChangesLocked, before the pull request check
    | Committing(held: Option<nat>)   // inside commitChanges
    | Unlocking(held: Option<nat>)    // leaving commitChangesLocked
    | Committed                       // back in UpdateApplication
    | Updated(result: Result)         // UpdateApplication has returned
    | Recorded(result: Result)        // the result is in the totals
    | SignedOff(result: Result)       // wg.Done has run, the semaphore is still held
    | Finished(result: Result)

  datatype State = State(
    cancelled: bool,
    // How many applications the main loop has passed.
    next: nat,
    waitGroup: int,
    semFree: int,
    pcs: seq<Pc>,
    // SyncIterationState: one mutex per repository, created on first use, and the claimed targets.
    repositoryLocks: map<string, nat>,
    mutexHolder: map<nat, nat>,
    prCreated: set<string>,
    // History: the applications that went on to commitChanges with a pull request.
    openedPR: set<nat>,
    totals: Totals)

  datatype Step =
    | Cancel
    | Acquire
    | AcquireFails
    | EnterCommit(app: nat)
    | Lock(app: nat)
    | CheckPR(app: nat)
    | Commit(app: nat)
    | Unlock(app: nat)
    | Return(app: nat, result: Result)
    | Record(app: nat)
    | SignOff(app: nat)
    | Release(app: nat)

  predicate WellFormed(c: Cycle, s: State) {
    |s.pcs| == |c.apps| && s.next <= |c.apps|
  }

  function Init(c: Cycle): (s: State) {
    State(false, 0, |c.apps|, c.concurrency, seq(|c.apps|, _ => Pending), map[], map[], {}, {},
          Totals(0, 0, 0, 0, 0, []))
  }

  predicate Enabled(c: Cycle, s: State, step: Step)
    requires WellFormed(c, s)
  {
    match step
    case Cancel => !s.cancelled
    case Acquire => s.next < |c.apps| && s.semFree > 0
    case AcquireFails => s.next < |c.apps| && s.cancelled
    case EnterCommit(i) => i < |c.apps| && s.pcs[i].Updating?
    case Lock(i) => i < |c.apps| && s.pcs[i].Locking? && s.pcs[i].mutex !in s.mutexHolder
    case CheckPR(i) => i < |c.apps| && s.pcs[i].InCommit?
    case Commit(i) => i < |c.apps| && s.pcs[i].Committing?
    case Unlock(i) => i < |c.apps| && s.pcs[i].Unlocking?
    case Return(i, _) => i < |c.apps| && (s.pcs[i].Updating? || s.pcs[i].Committed?)
    case Record(i) => i < |c.apps| && s.pcs[i].Updated?
    case SignOff(i) => i < |c.apps| && s.pcs[i].Recorded?
    case Release(i) => i < |c.apps| && s.pcs[i].SignedOff?
  }

  /** The application a step moves. */
  function Mover(s: State, step: Step): nat
    requires !step.Cancel?
  {
    if step.Acquire? || step.AcquireFails? then s.next else step.app
  }

  /** GetRepositoryLock: the repository's mutex, created when there is none. */
  function RepositoryLock(locks: map<string, nat>, repo: string): nat {
    if repo in locks then locks[repo] else |locks|
  }

  /** Whether `app` has to skip its pull request because its target is claimed already. */
  predicate TargetClaimed(app: App, prCreated: set<string>) {
    app.prKey.Some? && app.prKey.value in prCreated
  }

  /** Where a step takes the application it moves. */
  function NextPc(c: Cycle, s: State, step: Step): Pc
    requires WellFormed(c, s) && Enabled(c, s, step) && !step.Cancel?
  {
    match step
    case Acquire => Updating
    case AcquireFails => GaveUp
    case EnterCommit(i) =>
      if c.apps[i].requiresLocking then Locking(RepositoryLock(s.repositoryLocks, c.apps[i].gitRepo))
      else InCommit(None)
    case Lock(i) => InCommit(Some(s.pcs[i].mutex))
    case CheckPR(i) =>
      if TargetClaimed(c.apps[i], s.prCreated) then Unlocking(s.pcs[i].held) else Committing(s.pcs[i].held)
    case Commit(i) => Unlocking(s.pcs[i].held)
    case Unlock(i) => Committed
    case Return(i, r) => Updated(r)
    case Record(i) => Recorded(s.pcs[i].result)
    case SignOff(i) => SignedOff(s.pcs[i].result)
    case Release(i) => Finished(s.pcs[i].result)
  }

  function AddResult(t: Totals, r: Result): Totals {
    Totals(t.processed + 1, t.errors + r.errors, t.considered + r.considered, t.updated + r.updated,
           t.skipped + r.skipped, t.changes + r.changes)
  }

  function Do(c: Cycle, s: State, step: Step): (s': State)
    requires WellFormed(c, s) && Enabled(c, s, step)
    ensures WellFormed(c, s')
  {
    if step.Cancel? then s.(cancelled := true)
    else
      var moved := s.(pcs := s.pcs[Mover(s, step) := NextPc(c, s, step)]);
      match step
      case Acquire => moved.(next := s.next + 1, semFree := s.semFree - 1)
      case AcquireFails => moved.(next := s.next + 1, waitGroup := s.waitGroup - 1)
      case EnterCommit(i) =>
        if c.apps[i].requiresLocking then
          var m := RepositoryLock(s.repositoryLocks, c.apps[i].gitRepo);
          moved.(repositoryLocks := s.repositoryLocks[c.apps[i].gitRepo := m])
        else
          moved
      case Lock(i) => moved.(mutexHolder := s.mutexHolder[s.pcs[i].mutex := i])
      case CheckPR(i) =>
        if c.apps[i].prKey.None? || TargetClaimed(c.apps[i], s.prCreated) then moved
        else moved.(prCreated := s.prCreated + {c.apps[i].prKey.value}, openedPR := s.openedPR + {i})
      case Commit(i) => moved
      case Unlock(i) =>
        if s.pcs[i].held.Some? then moved.(mutexHolder := s.mutexHolder - {s.pcs[i].held.value}) else moved
      case Return(i, _) => moved
      case Record(i) => moved.(totals := AddResult(s.totals, s.pcs[i].result))
      case SignOff(i) => moved.(waitGroup := s.waitGroup - 1)
      case Release(i) => moved.(semFree := s.semFree + 1)
  }

  /** The state after a schedule, or None when one of its steps was not enabled. */
  function Execute(c: Cycle, schedule: seq<Step>): (r: Option<State>)
    ensures r.Some? ==> WellFormed(c, r.value)
  {
    if schedule == [] then Some(Init(c))
    else
      var before := Execute(c, schedule[..|schedule| - 1]);
      var step := schedule[|schedule| - 1];
      if before.Some? && Enabled(c, before.value, step) then Some(Do(c, before.value, step)) else None
  }

  // ---------------------------------------------------------------------------------------------
  // The shared state the goroutines go through, as an object
  // ---------------------------------------------------------------------------------------------

  class Mutex {
    constructor () {
    }
  }

  /** SyncIterationState. Its methods run under its own lock, so each is one atomic step. */
  class SyncIterationState {
    var repositoryLocks: map<string, Mutex>
    var prCreated: map<string, bool>

    /** No two repositories share a mutex. */
    ghost predicate Valid()
      reads this
    {
      forall r, r' :: r in repositoryLocks && r' in repositoryLocks && r != r' ==>
          repositoryLocks[r] != repositoryLocks[r']
    }

    ghost function Claimed(): set<string>
      reads this
    {
      set k | k in prCreated && prCreated[k]
    }

    constructor ()
      ensures Valid() && Claimed() == {} && repositoryLocks == map[]
    {
      repositoryLocks, prCreated := map[], map[];
    }

    /** True for the first caller with a key and for nobody after. */
    method MarkPRCreated(targetKey: string) returns (first: bool)
      modifies this`prCreated
      ensures first <==> targetKey !in old(Claimed())
      ensures Claimed() == old(Claimed()) + {targetKey}
    {
      if targetKey in prCreated && prCreated[targetKey] {
        return false;
      }
      prCreated := prCreated[targetKey := true];
      return true;
    }

    /** The same mutex for the same repository for as long as the state lives. */
    method GetRepositoryLock(repository: string) returns (lock: Mutex)
      requires Valid()
      modifies this`repositoryLocks
      ensures Valid()
      ensures repository in repositoryLocks && lock == repositoryLocks[repository]
      ensures repositoryLocks.Keys == old(repositoryLocks).Keys + {repository}
      ensures forall r :: r in old(repositoryLocks) ==> repositoryLocks[r] == old(repositoryLocks)[r]
      ensures repository !in old(repositoryLocks) ==> fresh(lock)
    {
      if repository in repositoryLocks {
        return repositoryLocks[repository];
      }
      lock := new Mutex();
      repositoryLocks := repositoryLocks[repository := lock];
    }
  }

  // ---------------------------------------------------------------------------------------------
  // What the state means
  // ---------------------------------------------------------------------------------------------

  predicate Runs(pc: Pc) {
    !pc.Pending? && !pc.GaveUp? && !pc.Finished?
  }

  predicate Unsigned(pc: Pc) {
    !pc.GaveUp? && !pc.SignedOff? && !pc.Finished?
  }

  /** Between locking and unlocking in commitChangesLocked. */
  predicate InSection(pc: Pc) {
    pc.InCommit? || pc.Committing? || pc.Unlocking?
  }

  function Running(pcs: seq<Pc>): set<nat> {
    set i: nat | i < |pcs| && Runs(pcs[i])
  }

  function Waiting(pcs: seq<Pc>): set<nat> {
    set i: nat | i < |pcs| && Unsigned(pcs[i])
  }

  /** The quantities the totals add up: the counters and how often a given change was made. */
  datatype Quantity = Processed | Errors | Considered | ImagesUpdated | Skipped | Occurrences(change: Change)

  function Amount(q: Quantity, r: Result): nat {
    match q
    case Processed => 1
    case Errors => r.errors
    case Considered => r.considered
    case ImagesUpdated => r.updated
    case Skipped => r.skipped
    case Occurrences(change) => multiset(r.changes)[change]
  }

  function TotalAmount(q: Quantity, t: Totals): nat {
    match q
    case Processed => t.processed
    case Errors => t.errors
    case Considered => t.considered
    case ImagesUpdated => t.updated
    case Skipped => t.skipped
    case Occurrences(change) => multiset(t.changes)[change]
  }

  /** What one application contributes: its amount once it is recorded. */
  function Contribution(q: Quantity, pc: Pc): nat {
    if pc.Recorded? || pc.SignedOff? || pc.Finished? then Amount(q, pc.result) else 0
  }

  function Sum(q: Quantity, pcs: seq<Pc>): nat {
    if pcs == [] then 0 else Sum(q, pcs[..|pcs| - 1]) + Contribution(q, pcs[|pcs| - 1])
  }

  ghost predicate TotalsInv(totals: Totals, pcs: seq<Pc>) {
    forall q :: TotalAmount(q, totals) == Sum(q, pcs)
  }

  /** The main loop has started exactly the applications it has passed. */
  predicate OrderInv(next: nat, pcs: seq<Pc>) {
    forall i :: 0 <= i < |pcs| ==> (pcs[i].Pending? <==> next <= i)
  }

  predicate SemInv(concurrency: nat, semFree: int, pcs: seq<Pc>) {
    semFree >= 0 && semFree + |Running(pcs)| == concurrency
  }

  predicate WaitInv(waitGroup: int, pcs: seq<Pc>) {
    waitGroup == |Waiting(pcs)|
  }

  /** Whoever waits for or holds a mutex has the one registered for its repository. */
  predicate MutexOf(app: App, pc: Pc, i: nat, locks: map<string, nat>, holder: map<nat, nat>) {
    && (pc.Locking? ==> app.requiresLocking && app.gitRepo in locks && locks[app.gitRepo] == pc.mutex)
    && (InSection(pc) ==>
          && (app.requiresLocking <==> pc.held.Some?)
          && (pc.held.Some? ==>
                && app.gitRepo in locks && locks[app.gitRepo] == pc.held.value
                && pc.held.value in holder && holder[pc.held.value] == i))
  }

  predicate HeldBy(pcs: seq<Pc>, m: nat, i: nat) {
    i < |pcs| && InSection(pcs[i]) && pcs[i].held == Some(m)
  }

  predicate LockInv(apps: seq<App>, pcs: seq<Pc>, locks: map<string, nat>, holder: map<nat, nat>)
    requires |apps| == |pcs|
  {
    && (forall i {:trigger pcs[i]} :: 0 <= i < |pcs| ==> MutexOf(apps[i], pcs[i], i, locks, holder))
    && (forall m :: m in holder ==> HeldBy(pcs, m, holder[m]))
  }

  /** Different repositories have different mutexes. */
  predicate LocksDistinct(locks: map<string, nat>) {
    && (forall r :: r in locks ==> locks[r] < |locks|)
    && (forall r, r' :: r in locks && r' in locks && r != r' ==> locks[r] != locks[r'])
  }

  predicate PRInv(apps: seq<App>, prCreated: set<string>, openedPR: set<nat>) {
    && (forall i :: i in openedPR ==> i < |apps| && apps[i].prKey.Some? && apps[i].prKey.value in prCreated)
    && (forall i, j :: i in openedPR && j in openedPR && i != j ==> apps[i].prKey != apps[j].prKey)
    && (forall k :: k in prCreated ==> exists i :: i in openedPR && apps[i].prKey == Some(k))
  }

  ghost predicate Inv(c: Cycle, s: State) {
    && WellFormed(c, s)
    && OrderInv(s.next, s.pcs)
    && SemInv(c.concurrency, s.semFree, s.pcs)
    && WaitInv(s.waitGroup, s.pcs)
    && LockInv(c.apps, s.pcs, s.repositoryLocks, s.mutexHolder)
    && LocksDistinct(s.repositoryLocks)
    && PRInv(c.apps, s.prCreated, s.openedPR)
    && TotalsInv(s.totals, s.pcs)
  }

  // ---------------------------------------------------------------------------------------------
  // Every step keeps the invariant
  // ---------------------------------------------------------------------------------------------

  /** Two sets that agree except perhaps on `i`. */
  lemma SizesDiffer(a: set<nat>, b: set<nat>, i: nat)
    requires a - {i} == b - {i}
    ensures |b| == |a| - (if i in a then 1 else 0) + (if i in b then 1 else 0)
  {
    assert |a - {i}| == |a| - (if i in a then 1 else 0);
    assert |b - {i}| == |b| - (if i in b then 1 else 0);
  }

  lemma RunningMoves(pcs: seq<Pc>, i: nat, pc: Pc)
    requires i < |pcs|
    ensures |Running(pcs[i := pc])| ==
            |Running(pcs)| - (if Runs(pcs[i]) then 1 else 0) + (if Runs(pc) then 1 else 0)
  {
    assert Running(pcs) - {i} == Running(pcs[i := pc]) - {i};
    SizesDiffer(Running(pcs), Running(pcs[i := pc]), i);
  }

  lemma WaitingMoves(pcs: seq<Pc>, i: nat, pc: Pc)
    requires i < |pcs|
    ensures |Waiting(pcs[i := pc])| ==
            |Waiting(pcs)| - (if Unsigned(pcs[i]) then 1 else 0) + (if Unsigned(pc) then 1 else 0)
  {
    assert Waiting(pcs) - {i} == Waiting(pcs[i := pc]) - {i};
    SizesDiffer(Waiting(pcs), Waiting(pcs[i := pc]), i);
  }

  lemma {:induction false} SumChanges(q: Quantity, pcs: seq<Pc>, i: nat, pc: Pc)
    requires i < |pcs|
    ensures Sum(q, pcs[i := pc]) == Sum(q, pcs) - Contribution(q, pcs[i]) + Contribution(q, pc)
  {
    var n := |pcs| - 1;
    if i == n {
      assert pcs[i := pc][..n] == pcs[..n];
    } else {
      assert pcs[i := pc][..n] == pcs[..n][i := pc];
      SumChanges(q, pcs[..n], i, pc);
    }
  }

  lemma {:induction false} SumOfPending(q: Quantity, pcs: seq<Pc>)
    requires forall i :: 0 <= i < |pcs| ==> pcs[i].Pending?
    ensures Sum(q, pcs) == 0
  {
    if pcs != [] {
      SumOfPending(q, pcs[..|pcs| - 1]);
    }
  }

  lemma {:induction false} FullRange(n: nat, s: set<nat>)
    requires forall i: nat :: i in s <==> i < n
    ensures |s| == n
  {
    if n == 0 {
      assert s == {};
    } else {
      FullRange(n - 1, s - {n - 1});
    }
  }

  lemma InitInv(c: Cycle)
    ensures Inv(c, Init(c))
  {
    var s := Init(c);
    forall q ensures Sum(q, s.pcs) == 0 {
      SumOfPending(q, s.pcs);
    }
    assert Running(s.pcs) == {};
    assert forall i: nat :: i in Waiting(s.pcs) <==> i < |c.apps|;
    FullRange(|c.apps|, Waiting(s.pcs));
  }

  lemma StepOrder(c: Cycle, s: State, step: Step)
    requires WellFormed(c, s) && OrderInv(s.next, s.pcs) && Enabled(c, s, step) && !step.Cancel?
    ensures OrderInv(Do(c, s, step).next, Do(c, s, step).pcs)
  {
    assert Mover(s, step) < |s.pcs|;
  }

  lemma StepCounts(c: Cycle, s: State, step: Step)
    requires WellFormed(c, s) && OrderInv(s.next, s.pcs) && Enabled(c, s, step) && !step.Cancel?
    requires SemInv(c.concurrency, s.semFree, s.pcs) && WaitInv(s.waitGroup, s.pcs)
    ensures var s' := Do(c, s, step);
            SemInv(c.concurrency, s'.semFree, s'.pcs) && WaitInv(s'.waitGroup, s'.pcs)
  {
    RunningMoves(s.pcs, Mover(s, step), NextPc(c, s, step));
    WaitingMoves(s.pcs, Mover(s, step), NextPc(c, s, step));
  }

  lemma DoMoves(c: Cycle, s: State, step: Step)
    requires WellFormed(c, s) && Enabled(c, s, step) && !step.Cancel?
    ensures Mover(s, step) < |s.pcs| && Do(c, s, step).pcs == s.pcs[Mover(s, step) := NextPc(c, s, step)]
    ensures Do(c, s, step).cancelled == s.cancelled
    ensures Do(c, s, step).totals == if step.Record? then AddResult(s.totals, s.pcs[step.app].result) else s.totals
  {
  }

  /** A result adds to every total what it contributes. */
  lemma ResultAdds(q: Quantity, t: Totals, r: Result)
    ensures TotalAmount(q, AddResult(t, r)) == TotalAmount(q, t) + Contribution(q, Recorded(r))
  {
    assert multiset(t.changes + r.changes) == multiset(t.changes) + multiset(r.changes);
  }

  /** Only recording changes what an application contributes. */
  lemma MoveContributes(c: Cycle, s: State, step: Step, q: Quantity)
    requires WellFormed(c, s) && OrderInv(s.next, s.pcs) && Enabled(c, s, step) && !step.Cancel?
    ensures Mover(s, step) < |s.pcs|
    ensures Contribution(q, NextPc(c, s, step)) - Contribution(q, s.pcs[Mover(s, step)]) ==
            if step.Record? then Contribution(q, Recorded(s.pcs[step.app].result)) else 0
  {
  }

  lemma StepTotals(c: Cycle, s: State, step: Step)
    requires WellFormed(c, s) && OrderInv(s.next, s.pcs) && Enabled(c, s, step) && !step.Cancel?
    requires TotalsInv(s.totals, s.pcs)
    ensures TotalsInv(Do(c, s, step).totals, Do(c, s, step).pcs)
  {
    DoMoves(c, s, step);
    var totals, i, pc := Do(c, s, step).totals, Mover(s, step), NextPc(c, s, step);
    forall q ensures TotalAmount(q, totals) == Sum(q, s.pcs[i := pc]) {
      SumChanges(q, s.pcs, i, pc);
      MoveContributes(c, s, step, q);
      if step.Record? {
        ResultAdds(q, s.totals, s.pcs[i].result);
      }
    }
  }

  /** A move outside the critical section, or one inside it that keeps the mutex. */
  lemma MoveKeepsLocks(apps: seq<App>, pcs: seq<Pc>, i: nat, pc: Pc, locks: map<string, nat>, holder: map<nat, nat>)
    requires |apps| == |pcs| && i < |pcs| && LockInv(apps, pcs, locks, holder)
    requires !pc.Locking?
    requires InSection(pc) <==> InSection(pcs[i])
    requires InSection(pc) ==> pc.held == pcs[i].held
    ensures LockInv(apps, pcs[i := pc], locks, holder)
  {
    forall m | m in holder ensures HeldBy(pcs[i := pc], m, holder[m]) {
      assert HeldBy(pcs, m, holder[m]);
    }
  }

  /** An application that needs no mutex enters or leaves the critical section. */
  lemma MoveWithoutMutex(apps: seq<App>, pcs: seq<Pc>, i: nat, pc: Pc, locks: map<string, nat>, holder: map<nat, nat>)
    requires |apps| == |pcs| && i < |pcs| && LockInv(apps, pcs, locks, holder)
    requires !apps[i].requiresLocking && !pc.Locking?
    requires InSection(pc) ==> pc.held == None
    ensures LockInv(apps, pcs[i := pc], locks, holder)
  {
    forall m | m in holder ensures HeldBy(pcs[i := pc], m, holder[m]) {
      assert HeldBy(pcs, m, holder[m]);
      assert MutexOf(apps[i], pcs[i], i, locks, holder);
    }
  }

  /** GetRepositoryLock creates a mutex that no other repository has. */
  lemma NewMutexIsDistinct(locks: map<string, nat>, repo: string)
    requires LocksDistinct(locks)
    ensures LocksDistinct(locks[repo := RepositoryLock(locks, repo)])
  {
    var locks' := locks[repo := RepositoryLock(locks, repo)];
    assert locks'.Keys == locks.Keys + {repo};
    assert |locks'.Keys| == |locks'| && |locks.Keys| == |locks|;
  }

  /** GetRepositoryLock registers at most one new mutex and forgets none. */
  lemma RegisterMutex(apps: seq<App>, pcs: seq<Pc>, i: nat, locks: map<string, nat>, holder: map<nat, nat>)
    requires |apps| == |pcs| && i < |pcs| && LockInv(apps, pcs, locks, holder)
    requires apps[i].requiresLocking && pcs[i].Updating?
    ensures var m := RepositoryLock(locks, apps[i].gitRepo);
            LockInv(apps, pcs[i := Locking(m)], locks[apps[i].gitRepo := m], holder)
  {
    var m := RepositoryLock(locks, apps[i].gitRepo);
    var pcs', locks' := pcs[i := Locking(m)], locks[apps[i].gitRepo := m];
    forall n | n in holder ensures HeldBy(pcs', n, holder[n]) {
      assert HeldBy(pcs, n, holder[n]);
    }
    forall j | 0 <= j < |pcs| ensures MutexOf(apps[j], pcs'[j], j, locks', holder) {
      assert MutexOf(apps[j], pcs[j], j, locks, holder);
    }
  }

  lemma TakeMutex(apps: seq<App>, pcs: seq<Pc>, i: nat, locks: map<string, nat>, holder: map<nat, nat>)
    requires |apps| == |pcs| && i < |pcs| && LockInv(apps, pcs, locks, holder)
    requires pcs[i].Locking? && pcs[i].mutex !in holder
    ensures LockInv(apps, pcs[i := InCommit(Some(pcs[i].mutex))], locks, holder[pcs[i].mutex := i])
  {
    var pcs' := pcs[i := InCommit(Some(pcs[i].mutex))];
    var holder' := holder[pcs[i].mutex := i];
    forall m | m in holder' ensures HeldBy(pcs', m, holder'[m]) {
      if m != pcs[i].mutex {
        assert HeldBy(pcs, m, holder[m]);
      }
    }
    forall j | 0 <= j < |pcs| ensures MutexOf(apps[j], pcs'[j], j, locks, holder') {
      assert MutexOf(apps[j], pcs[j], j, locks, holder);
    }
  }

  lemma ReturnMutex(apps: seq<App>, pcs: seq<Pc>, i: nat, locks: map<string, nat>, holder: map<nat, nat>)
    requires |apps| == |pcs| && i < |pcs| && LockInv(apps, pcs, locks, holder)
    requires pcs[i].Unlocking? && pcs[i].held.Some?
    ensures LockInv(apps, pcs[i := Committed], locks, holder - {pcs[i].held.value})
  {
    var mine := pcs[i].held.value;
    var pcs', holder' := pcs[i := Committed], holder - {mine};
    assert MutexOf(apps[i], pcs[i], i, locks, holder);
    forall m | m in holder' ensures HeldBy(pcs', m, holder'[m]) {
      assert HeldBy(pcs, m, holder[m]);
    }
    forall j | 0 <= j < |pcs| ensures MutexOf(apps[j], pcs'[j], j, locks, holder') {
      assert MutexOf(apps[j], pcs[j], j, locks, holder);
    }
  }

  ghost predicate LocksFit(c: Cycle, s: State) {
    && WellFormed(c, s)
    && LockInv(c.apps, s.pcs, s.repositoryLocks, s.mutexHolder)
    && LocksDistinct(s.repositoryLocks)
  }

  lemma EnterCommitLocks(c: Cycle, s: State, i: nat)
    requires LocksFit(c, s) && Enabled(c, s, EnterCommit(i))
    ensures LocksFit(c, Do(c, s, EnterCommit(i)))
  {
    if c.apps[i].requiresLocking {
      NewMutexIsDistinct(s.repositoryLocks, c.apps[i].gitRepo);
      RegisterMutex(c.apps, s.pcs, i, s.repositoryLocks, s.mutexHolder);
    } else {
      MoveWithoutMutex(c.apps, s.pcs, i, InCommit(None), s.repositoryLocks, s.mutexHolder);
    }
  }

  lemma UnlockLocks(c: Cycle, s: State, i: nat)
    requires LocksFit(c, s) && Enabled(c, s, Unlock(i))
    ensures LocksFit(c, Do(c, s, Unlock(i)))
  {
    assert MutexOf(c.apps[i], s.pcs[i], i, s.repositoryLocks, s.mutexHolder);
    if s.pcs[i].held.Some? {
      ReturnMutex(c.apps, s.pcs, i, s.repositoryLocks, s.mutexHolder);
    } else {
      MoveWithoutMutex(c.apps, s.pcs, i, Committed, s.repositoryLocks, s.mutexHolder);
    }
  }

  lemma OtherStepLocks(c: Cycle, s: State, step: Step)
    requires LocksFit(c, s) && OrderInv(s.next, s.pcs) && Enabled(c, s, step)
    requires !step.Cancel? && !step.EnterCommit? && !step.Lock? && !step.Unlock?
    ensures LocksFit(c, Do(c, s, step))
  {
    var i := Mover(s, step);
    MoveKeepsLocks(c.apps, s.pcs, i, NextPc(c, s, step), s.repositoryLocks, s.mutexHolder);
  }

  lemma StepLocks(c: Cycle, s: State, step: Step)
    requires LocksFit(c, s) && OrderInv(s.next, s.pcs) && Enabled(c, s, step) && !step.Cancel?
    ensures LocksFit(c, Do(c, s, step))
  {
    if step.EnterCommit? {
      EnterCommitLocks(c, s, step.app);
    } else if step.Lock? {
      TakeMutex(c.apps, s.pcs, step.app, s.repositoryLocks, s.mutexHolder);
    } else if step.Unlock? {
      UnlockLocks(c, s, step.app);
    } else {
      OtherStepLocks(c, s, step);
    }
  }

  lemma ClaimPR(apps: seq<App>, i: nat, prCreated: set<string>, openedPR: set<nat>)
    requires PRInv(apps, prCreated, openedPR)
    requires i < |apps| && apps[i].prKey.Some? && apps[i].prKey.value !in prCreated
    ensures PRInv(apps, prCreated + {apps[i].prKey.value}, openedPR + {i})
  {
    assert i in openedPR + {i};
  }

  lemma StepInv(c: Cycle, s: State, step: Step)
    requires Inv(c, s) && Enabled(c, s, step)
    ensures Inv(c, Do(c, s, step))
  {
    if !step.Cancel? {
      StepOrder(c, s, step);
      StepCounts(c, s, step);
      StepTotals(c, s, step);
      StepLocks(c, s, step);
      if step.CheckPR? && c.apps[step.app].prKey.Some? && c.apps[step.app].prKey.value !in s.prCreated {
        ClaimPR(c.apps, step.app, s.prCreated, s.openedPR);
      }
    }
  }

  lemma {:induction false} ReachableInv(c: Cycle, schedule: seq<Step>)
    requires Execute(c, schedule).Some?
    ensures Inv(c, Execute(c, schedule).value)
  {
    if schedule == [] {
      InitInv(c);
    } else {
      var before := schedule[..|schedule| - 1];
      ReachableInv(c, before);
      StepInv(c, Execute(c, before).value, schedule[|schedule| - 1]);
    }
  }

  // ---------------------------------------------------------------------------------------------
  // Safety, conservation and progress over every schedule
  // ---------------------------------------------------------------------------------------------

  /** Application `i` is in the commit section of its Git repository. */
  predicate Commits(c: Cycle, s: State, i: nat)
    requires WellFormed(c, s) && i < |c.apps|
  {
    InSection(s.pcs[i]) && c.apps[i].requiresLocking
  }

  /** In every state of every schedule: the three mutual-exclusion promises. */
  lemma Safety(c: Cycle, schedule: seq<Step>)
    requires Execute(c, schedule).Some?
    ensures var s := Execute(c, schedule).value;
            // at most MaxConcurrentApps applications run
            && |Running(s.pcs)| <= c.concurrency
            // no two applications are in the commit section for the same repository
            && (forall i, j :: 0 <= i < j < |c.apps| && Commits(c, s, i) && Commits(c, s, j) ==>
                  c.apps[i].gitRepo != c.apps[j].gitRepo)
            // at most one application per write-back target goes on to open a pull request
            && (forall i, j :: i in s.openedPR && j in s.openedPR && i != j ==>
                  i < |c.apps| && j < |c.apps| && c.apps[i].prKey != c.apps[j].prKey)
  {
    ReachableInv(c, schedule);
    var s := Execute(c, schedule).value;
    forall i, j | 0 <= i < j < |c.apps| && Commits(c, s, i) && Commits(c, s, j)
      ensures c.apps[i].gitRepo != c.apps[j].gitRepo
    {
      assert MutexOf(c.apps[i], s.pcs[i], i, s.repositoryLocks, s.mutexHolder);
      assert MutexOf(c.apps[j], s.pcs[j], j, s.repositoryLocks, s.mutexHolder);
    }
  }

  /** wg.Wait returns, and with it the cycle. */
  predicate Done(c: Cycle, s: State) {
    s.next == |c.apps| && s.waitGroup == 0
  }

  predicate HasResult(pc: Pc) {
    pc.SignedOff? || pc.Finished?
  }

  /**
   The WaitGroup never goes negative and is zero exactly when every application has run or given up.
   At all times every counter, and the number of times any change is listed, is the sum over the
   applications recorded so far; once the WaitGroup is zero these are all that ran.
   */
  lemma Conservation(c: Cycle, schedule: seq<Step>)
    requires Execute(c, schedule).Some?
    ensures var s := Execute(c, schedule).value;
            && s.waitGroup >= 0
            && (s.waitGroup == 0 <==> forall i :: 0 <= i < |s.pcs| ==> s.pcs[i].GaveUp? || HasResult(s.pcs[i]))
            && (forall q :: TotalAmount(q, s.totals) == Sum(q, s.pcs))
  {
    ReachableInv(c, schedule);
    var s := Execute(c, schedule).value;
    if s.waitGroup == 0 {
      assert Waiting(s.pcs) == {};
      forall i | 0 <= i < |s.pcs| ensures s.pcs[i].GaveUp? || HasResult(s.pcs[i]) {
        assert i !in Waiting(s.pcs);
      }
    } else {
      var i :| i in Waiting(s.pcs);
    }
  }

  /** A step that the goroutine of a running application can take, when it does not wait for a mutex. */
  function NextStep(pc: Pc, i: nat): Step
    requires Runs(pc)
  {
    match pc
    case Updating => Return(i, Result(0, 0, 0, 0, []))
    case Locking(_) => Lock(i)
    case InCommit(_) => CheckPR(i)
    case Committing(_) => Commit(i)
    case Unlocking(_) => Unlock(i)
    case Committed => Return(i, Result(0, 0, 0, 0, []))
    case Updated(_) => Record(i)
    case Recorded(_) => SignOff(i)
    case SignedOff(_) => Release(i)
  }

  /** Some step other than cancelling the context can be taken. */
  ghost predicate CanMove(c: Cycle, s: State)
    requires WellFormed(c, s)
  {
    exists step: Step :: !step.Cancel? && Enabled(c, s, step)
  }

  /** As long as any application runs, one of them can move: waiting for a mutex never forms a cycle. */
  lemma RunningCanMove(c: Cycle, s: State, i: nat)
    requires Inv(c, s) && i in Running(s.pcs)
    ensures CanMove(c, s)
  {
    var step := NextStep(s.pcs[i], i);
    if s.pcs[i].Locking? && s.pcs[i].mutex in s.mutexHolder {
      var j := s.mutexHolder[s.pcs[i].mutex];
      assert HeldBy(s.pcs, s.pcs[i].mutex, j);
      assert Enabled(c, s, NextStep(s.pcs[j], j));
    } else {
      assert Enabled(c, s, step);
    }
  }

  lemma OnlyRunningStep(c: Cycle, s: State, step: Step)
    requires WellFormed(c, s) && !step.Cancel? && !step.Acquire? && !step.AcquireFails?
    ensures Enabled(c, s, step) ==> step.app in Running(s.pcs)
  {
  }

  lemma IdleIsDone(c: Cycle, s: State)
    requires Inv(c, s) && Running(s.pcs) == {} && s.next == |c.apps|
    ensures Done(c, s)
  {
    forall i: nat ensures i !in Waiting(s.pcs) {
      assert i !in Running(s.pcs);
    }
    assert Waiting(s.pcs) == {};
  }

  /**
   The cycle never gets stuck short of its end, exactly if the semaphore admits anyone at all or the
   context is cancelled: with a concurrency of zero the main loop would wait for ever.
   */
  lemma Progress(c: Cycle, schedule: seq<Step>)
    requires Execute(c, schedule).Some?
    requires !Done(c, Execute(c, schedule).value)
    ensures CanMove(c, Execute(c, schedule).value) <==> c.concurrency > 0 || Execute(c, schedule).value.cancelled
  {
    ReachableInv(c, schedule);
    var s := Execute(c, schedule).value;
    if Running(s.pcs) != {} {
      var i :| i in Running(s.pcs);
      RunningCanMove(c, s, i);
    } else if s.next == |c.apps| {
      IdleIsDone(c, s);
    } else {
      assert Enabled(c, s, Acquire) <==> s.semFree > 0;
      assert Enabled(c, s, AcquireFails) <==> s.cancelled;
      forall step: Step | !step.Cancel? && !step.Acquire? && !step.AcquireFails? ensures !Enabled(c, s, step) {
        OnlyRunningStep(c, s, step);
      }
    }
  }

  /** With a concurrency of zero, a cycle with an application cannot even start. */
  lemma ZeroConcurrencyIsStuck(app: App)
    ensures var c := Cycle([app], 0);
            Execute(c, []).Some? && !Done(c, Execute(c, []).value) && !CanMove(c, Execute(c, []).value)
  {
    Progress(Cycle([app], 0), []);
  }

  function Remaining(pc: Pc): nat {
    match pc
    case Pending => 10
    case Updating => 9
    case Locking(_) => 8
    case InCommit(_) => 7
    case Committing(_) => 6
    case Unlocking(_) => 5
    case Committed => 4
    case Updated(_) => 3
    case Recorded(_) => 2
    case SignedOff(_) => 1
    case GaveUp => 0
    case Finished(_) => 0
  }

  function Effort(pcs: seq<Pc>): nat {
    if pcs == [] then 0 else Effort(pcs[..|pcs| - 1]) + Remaining(pcs[|pcs| - 1])
  }

  lemma {:induction false} EffortChanges(pcs: seq<Pc>, i: nat, pc: Pc)
    requires i < |pcs|
    ensures Effort(pcs[i := pc]) == Effort(pcs) - Remaining(pcs[i]) + Remaining(pc)
  {
    var n := |pcs| - 1;
    if i == n {
      assert pcs[i := pc][..n] == pcs[..n];
    } else {
      assert pcs[i := pc][..n] == pcs[..n][i := pc];
      EffortChanges(pcs[..n], i, pc);
    }
  }

  lemma {:induction false} EffortOfPending(pcs: seq<Pc>)
    requires forall i :: 0 <= i < |pcs| ==> pcs[i].Pending?
    ensures Effort(pcs) == 10 * |pcs|
  {
    if pcs != [] {
      EffortOfPending(pcs[..|pcs| - 1]);
    }
  }

  /** Every move brings its application closer to its end. */
  lemma MoveLowers(c: Cycle, s: State, step: Step)
    requires WellFormed(c, s) && OrderInv(s.next, s.pcs) && Enabled(c, s, step) && !step.Cancel?
    ensures Mover(s, step) < |s.pcs| && Remaining(NextPc(c, s, step)) < Remaining(s.pcs[Mover(s, step)])
  {
  }

  lemma StepEffort(c: Cycle, s: State, step: Step)
    requires WellFormed(c, s) && OrderInv(s.next, s.pcs) && Enabled(c, s, step)
    ensures var s' := Do(c, s, step);
            Effort(s'.pcs) + (if s'.cancelled then 0 else 1) < Effort(s.pcs) + (if s.cancelled then 0 else 1)
  {
    if !step.Cancel? {
      DoMoves(c, s, step);
      MoveLowers(c, s, step);
      EffortChanges(s.pcs, Mover(s, step), NextPc(c, s, step));
    }
  }

  /** No schedule goes on for ever: with Progress, every schedule that is not cut short ends in Done. */
  lemma {:induction false} Termination(c: Cycle, schedule: seq<Step>)
    requires Execute(c, schedule).Some?
    ensures var s := Execute(c, schedule).value;
            |schedule| + Effort(s.pcs) + (if s.cancelled then 0 else 1) <= 10 * |c.apps| + 1
  {
    if schedule == [] {
      EffortOfPending(Init(c).pcs);
    } else {
      var before := schedule[..|schedule| - 1];
      Termination(c, before);
      ReachableInv(c, before);
      StepEffort(c, Execute(c, before).value, schedule[|schedule| - 1]);
    }
  }

  lemma GoOn(c: Cycle, schedule: seq<Step>) returns (step: Step)
    requires Execute(c, schedule).Some? && c.concurrency > 0 && !Done(c, Execute(c, schedule).value)
    ensures Execute(c, schedule + [step]).Some?
    ensures |schedule| < 10 * |c.apps| + 1
  {
    Progress(c, schedule);
    step :| !step.Cancel? && Enabled(c, Execute(c, schedule).value, step);
    var longer := schedule + [step];
    assert longer[..|longer| - 1] == schedule;
    Termination(c, longer);
  }

  /** Whatever has happened so far, the cycle can still be brought to its end. */
  lemma {:induction false} Completes(c: Cycle, schedule: seq<Step>) returns (rest: seq<Step>)
    requires Execute(c, schedule).Some? && c.concurrency > 0
    ensures Execute(c, schedule + rest).Some? && Done(c, Execute(c, schedule + rest).value)
    decreases 10 * |c.apps| + 1 - |schedule|
  {
    if Done(c, Execute(c, schedule).value) {
      rest := [];
      assert schedule + rest == schedule;
    } else {
      var step := GoOn(c, schedule);
      var more := Completes(c, schedule + [step]);
      rest := [step] + more;
      Regroup(schedule, [step], more);
    }
  }
}

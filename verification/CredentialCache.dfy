/**
 The credentials cached on a registry endpoint (registry-scanner/pkg/registry/registry.go).

 Any number of callers ask the endpoint for credentials and report refusals; the endpoint's lock is
 held only for the single steps modelled here, so that the steps of callers interleave freely.
 Fetching itself happens outside the lock and may fail or return any pair.
 */
module CredentialCache {
  import opened Options

  /** A pair of credentials; which source it was fetched from is history. */
  datatype Credential = Credential(username: string, password: string, source: string)

  const NO_CREDENTIAL := Credential("", "", "")

  /** What the endpoint is configured with: its own source, empty if none, and the validity of what it caches. */
  datatype Endpoint = Endpoint(credentials: string, credsExpire: int)

  /** Username and Password, and CredsUpdated; None is the zero time. */
  datatype Cache = Cache(pair: Credential, updated: Option<int>)

  // ---------------------------------------------------------------------------------------------
  // The critical sections
  // ---------------------------------------------------------------------------------------------

  predicate Usable(c: Credential) {
    c.username != "" && c.password != ""
  }

  predicate CredsExpiredByTime(ep: Endpoint, cache: Cache, now: int) {
    ep.credentials != "" && cache.updated.Some? && ep.credsExpire > 0 && now - cache.updated.value >= ep.credsExpire
  }

  function Expired(ep: Endpoint, cache: Cache, now: int): Cache {
    if CredsExpiredByTime(ep, cache, now) then cache.(pair := NO_CREDENTIAL) else cache
  }

  /** A refusal of the registry clears credentials of the endpoint that are still valid. */
  function Refused(ep: Endpoint, cache: Cache, usingEndpointCreds: bool, now: int): Cache {
    if usingEndpointCreds && ep.credsExpire > 0 && !CredsExpiredByTime(ep, cache, now) then
      cache.(pair := NO_CREDENTIAL)
    else cache
  }

  /** Only what was fetched from the endpoint's own source is cached. */
  function Stored(cache: Cache, fetchForEndpoint: bool, fetched: Credential, now: int): Cache {
    if fetchForEndpoint then Cache(fetched, Some(now)) else cache
  }

  // ---------------------------------------------------------------------------------------------
  // Calls
  // ---------------------------------------------------------------------------------------------

  /**
   Where a call of setEndpointCredentialsInternal is; `secret` is the pull secret of the image, empty if
   none. The age of a pair returned from the cache is its age at the time the call checked for expiry.
   */
  datatype Flight =
    | Checked(secret: string, at: int)
    | Fetching(secret: string)
    | Fetched(secret: string, pair: Credential)
    | Returned(secret: string, pair: Credential, cached: bool, age: int)
    | Failed(secret: string)

  /** A caller of SetEndpointCredentials and the call it shares with the others of its source. */
  datatype Caller = Caller(secret: string, flight: nat)

  datatype State = State(clock: int, cache: Cache, flights: seq<Flight>, callers: seq<Caller>)

  datatype Step =
    | Begin(secret: string, now: int)
    | Join(secret: string, flight: nat)
    | Look(flight: nat)
    | FetchEnds(flight: nat, username: string, password: string)
    | FetchFails(flight: nat)
    | Finish(flight: nat, now: int)
    | Refuse(usingEndpointCreds: bool, now: int)

  function Init(start: int): State {
    State(start, Cache(NO_CREDENTIAL, None), [], [])
  }

  /** The source a call fetches from, by which calls are shared. */
  function Source(ep: Endpoint, secret: string): string {
    if secret == "" then ep.credentials else secret
  }

  predicate InFlight(f: Flight) {
    !f.Returned? && !f.Failed?
  }

  predicate Enabled(ep: Endpoint, s: State, step: Step) {
    match step
    case Begin(secret, now) =>
      && now >= s.clock
      && forall f :: 0 <= f < |s.flights| && InFlight(s.flights[f]) ==>
           Source(ep, s.flights[f].secret) != Source(ep, secret)
    case Join(secret, f) =>
      f < |s.flights| && InFlight(s.flights[f]) && Source(ep, s.flights[f].secret) == Source(ep, secret)
    case Look(f) => f < |s.flights| && s.flights[f].Checked?
    case FetchEnds(f, _, _) => f < |s.flights| && s.flights[f].Fetching?
    case FetchFails(f) => f < |s.flights| && s.flights[f].Fetching?
    case Finish(f, now) => f < |s.flights| && s.flights[f].Fetched? && now >= s.clock
    case Refuse(_, now) => now >= s.clock
  }

  function Move(s: State, f: nat, flight: Flight): State
    requires f < |s.flights|
  {
    s.(flights := s.flights[f := flight])
  }

  /** What a call does with what it sees in the cache. */
  function Looked(ep: Endpoint, cache: Cache, secret: string, at: int): Flight {
    if secret == "" && Usable(cache.pair) then
      Returned(secret, cache.pair, true, if cache.updated.Some? then at - cache.updated.value else 0)
    else if ep.credentials != "" || secret != "" then Fetching(secret)
    else Returned(secret, cache.pair, false, 0)
  }

  function Do(ep: Endpoint, s: State, step: Step): State
    requires Enabled(ep, s, step)
  {
    match step
    case Begin(secret, now) =>
      s.(clock := now, cache := Expired(ep, s.cache, now), flights := s.flights + [Checked(secret, now)],
         callers := s.callers + [Caller(secret, |s.flights|)])
    case Join(secret, f) => s.(callers := s.callers + [Caller(secret, f)])
    case Look(f) => Move(s, f, Looked(ep, s.cache, s.flights[f].secret, s.flights[f].at))
    case FetchEnds(f, username, password) =>
      Move(s, f, Fetched(s.flights[f].secret, Credential(username, password, Source(ep, s.flights[f].secret))))
    case FetchFails(f) => Move(s, f, Failed(s.flights[f].secret))
    case Finish(f, now) =>
      var secret, pair := s.flights[f].secret, s.flights[f].pair;
      Move(s, f, Returned(secret, pair, false, 0)).(clock := now, cache := Stored(s.cache, secret == "", pair, now))
    case Refuse(usingEndpointCreds, now) => s.(clock := now, cache := Refused(ep, s.cache, usingEndpointCreds, now))
  }

  /** The state after some steps from `s` on, or None when one of them was not enabled. */
  function Run(ep: Endpoint, s: State, steps: seq<Step>): Option<State> {
    if steps == [] then Some(s)
    else
      var before, step := Run(ep, s, steps[..|steps| - 1]), steps[|steps| - 1];
      if before.Some? && Enabled(ep, before.value, step) then Some(Do(ep, before.value, step)) else None
  }

  function Execute(ep: Endpoint, start: int, schedule: seq<Step>): Option<State> {
    Run(ep, Init(start), schedule)
  }

  lemma RunMore(ep: Endpoint, s: State, steps: seq<Step>, step: Step)
    requires Run(ep, s, steps).Some? && Enabled(ep, Run(ep, s, steps).value, step)
    ensures Run(ep, s, steps + [step]) == Some(Do(ep, Run(ep, s, steps).value, step))
  {
    assert (steps + [step])[..|steps|] == steps;
  }

  // ---------------------------------------------------------------------------------------------
  // What every step keeps
  // ---------------------------------------------------------------------------------------------

  predicate IsEmpty(c: Credential) {
    c.username == "" && c.password == ""
  }

  /** The cache is empty or holds a pair of the endpoint's own source, with the time it was fetched. */
  predicate CacheInv(ep: Endpoint, cache: Cache) {
    IsEmpty(cache.pair) || (ep.credentials != "" && cache.pair.source == ep.credentials && cache.updated.Some?)
  }

  /** With an expiry configured, what a call that has checked can find was not expired when it checked. */
  predicate Fresh(ep: Endpoint, cache: Cache, at: int) {
    ep.credsExpire > 0 && Usable(cache.pair) ==> cache.updated.Some? && at - cache.updated.value < ep.credsExpire
  }

  predicate FlightInv(ep: Endpoint, cache: Cache, clock: int, flight: Flight) {
    match flight
    case Checked(_, at) => at <= clock && Fresh(ep, cache, at)
    case Fetching(secret) => ep.credentials != "" || secret != ""
    case Fetched(secret, pair) => Source(ep, secret) != "" && pair.source == Source(ep, secret)
    case Returned(secret, pair, cached, age) =>
      && (IsEmpty(pair) || (Source(ep, secret) != "" && pair.source == Source(ep, secret)))
      && (cached ==> secret == "" && Usable(pair) && (ep.credsExpire > 0 ==> age < ep.credsExpire))
    case Failed(_) => true
  }

  /** A caller shares a call of its own source. */
  predicate CallerInv(ep: Endpoint, flights: seq<Flight>, c: Caller) {
    c.flight < |flights| && Source(ep, flights[c.flight].secret) == Source(ep, c.secret)
  }

  /** No two calls of one source are under way. */
  predicate SingleInv(ep: Endpoint, flights: seq<Flight>) {
    forall f, g :: 0 <= f < g < |flights| && InFlight(flights[f]) && InFlight(flights[g]) ==>
      Source(ep, flights[f].secret) != Source(ep, flights[g].secret)
  }

  predicate Inv(ep: Endpoint, s: State) {
    && CacheInv(ep, s.cache)
    && (forall f :: 0 <= f < |s.flights| ==> FlightInv(ep, s.cache, s.clock, s.flights[f]))
    && (forall c :: 0 <= c < |s.callers| ==> CallerInv(ep, s.flights, s.callers[c]))
    && SingleInv(ep, s.flights)
  }

  lemma StepKeepsCache(ep: Endpoint, s: State, step: Step)
    requires Inv(ep, s) && Enabled(ep, s, step)
    ensures CacheInv(ep, Do(ep, s, step).cache)
  {
    if step.Finish? {
      assert FlightInv(ep, s.cache, s.clock, s.flights[step.flight]);
    }
  }

  /** Whatever happens to the cache, what other calls have seen of it stays fresh enough. */
  lemma StepKeepsFlight(ep: Endpoint, s: State, step: Step, f: nat)
    requires Inv(ep, s) && Enabled(ep, s, step) && f < |Do(ep, s, step).flights|
    ensures var s' := Do(ep, s, step);
            FlightInv(ep, s'.cache, s'.clock, s'.flights[f])
  {
    if f < |s.flights| {
      assert FlightInv(ep, s.cache, s.clock, s.flights[f]);
    }
    if step.Finish? {
      assert FlightInv(ep, s.cache, s.clock, s.flights[step.flight]);
    }
  }

  /** No step lets a call change its source, and callers join only calls of theirs. */
  lemma StepKeepsCallers(ep: Endpoint, s: State, step: Step)
    requires Inv(ep, s) && Enabled(ep, s, step)
    ensures var s' := Do(ep, s, step);
            SingleInv(ep, s'.flights) && forall c :: 0 <= c < |s'.callers| ==> CallerInv(ep, s'.flights, s'.callers[c])
  {
    var s' := Do(ep, s, step);
    assert forall f :: 0 <= f < |s.flights| ==>
                         && s'.flights[f].secret == s.flights[f].secret
                         && (InFlight(s'.flights[f]) ==> InFlight(s.flights[f]));
    forall c | 0 <= c < |s'.callers| ensures CallerInv(ep, s'.flights, s'.callers[c]) {
      if c < |s.callers| {
        assert CallerInv(ep, s.flights, s.callers[c]);
      }
    }
  }

  lemma {:induction false} ReachableInv(ep: Endpoint, start: int, schedule: seq<Step>)
    requires Execute(ep, start, schedule).Some?
    ensures Inv(ep, Execute(ep, start, schedule).value)
    decreases |schedule|
  {
    if schedule != [] {
      var before, step := schedule[..|schedule| - 1], schedule[|schedule| - 1];
      ReachableInv(ep, start, before);
      StepInv(ep, Execute(ep, start, before).value, step);
    }
  }

  lemma StepInv(ep: Endpoint, s: State, step: Step)
    requires Inv(ep, s) && Enabled(ep, s, step)
    ensures Inv(ep, Do(ep, s, step))
  {
    StepKeepsCache(ep, s, step);
    StepKeepsCallers(ep, s, step);
    forall f | 0 <= f < |Do(ep, s, step).flights|
      ensures FlightInv(ep, Do(ep, s, step).cache, Do(ep, s, step).clock, Do(ep, s, step).flights[f])
    {
      StepKeepsFlight(ep, s, step, f);
    }
  }

  /**
   In every run the cache is empty or holds what the endpoint's own source gave; every caller, whether it
   made its call or joined one, gets what its own source gave; a pair from the cache goes only to callers
   of the endpoint's source, and with an expiry configured it was younger than that when the call checked.
   */
  lemma Safety(ep: Endpoint, start: int, schedule: seq<Step>, c: nat)
    requires Execute(ep, start, schedule).Some?
    ensures var s := Execute(ep, start, schedule).value;
            && (IsEmpty(s.cache.pair) || (ep.credentials != "" && s.cache.pair.source == ep.credentials))
            && (c < |s.callers| ==> s.callers[c].flight < |s.flights|)
            && (c < |s.callers| && s.flights[s.callers[c].flight].Returned? ==>
                  var secret, r := s.callers[c].secret, s.flights[s.callers[c].flight];
                  && (IsEmpty(r.pair) || r.pair.source == Source(ep, secret))
                  && (r.cached ==>
                        Source(ep, secret) == ep.credentials && (ep.credsExpire > 0 ==> r.age < ep.credsExpire)))
  {
    ReachableInv(ep, start, schedule);
    var s := Execute(ep, start, schedule).value;
    if c < |s.callers| {
      assert CallerInv(ep, s.flights, s.callers[c]);
      assert FlightInv(ep, s.cache, s.clock, s.flights[s.callers[c].flight]);
    }
  }

  /**
   After a refusal of the endpoint's own credentials, a call that begins later fetches anew instead of
   being given the refused pair, if it has no pull secret and nothing is cached in between.
   */
  lemma RefusalForcesFetch(ep: Endpoint, cache: Cache, now: int, later: int)
    requires ep.credentials != "" && ep.credsExpire > 0 && now <= later
    ensures Looked(ep, Expired(ep, Refused(ep, cache, true, now), later), "", later) == Fetching("")
  {
  }

  /** A usable pair of the endpoint that is younger than its expiry is given to callers without a pull secret. */
  lemma FreshPairIsUsed(ep: Endpoint, cache: Cache, fetchedAt: int, now: int)
    requires cache.pair.username != "" && cache.pair.password != "" && cache.updated == Some(fetchedAt)
    requires ep.credsExpire <= 0 || now - fetchedAt < ep.credsExpire
    ensures Looked(ep, Expired(ep, cache, now), "", now) == Returned("", cache.pair, true, now - fetchedAt)
  {
  }

  /** One that is as old as the expiry is fetched anew, and a pull secret is always fetched. */
  lemma OldPairIsNotUsed(ep: Endpoint, cache: Cache, fetchedAt: int, now: int, secret: string)
    requires cache.updated == Some(fetchedAt) && ep.credentials != ""
    requires secret != "" || (ep.credsExpire > 0 && now - fetchedAt >= ep.credsExpire)
    ensures Looked(ep, Expired(ep, cache, now), secret, now) == Fetching(secret)
  {
  }

  /** A refusal of other credentials, or of credentials that have expired, leaves the cache alone. */
  lemma RefusalElsewhere(ep: Endpoint, cache: Cache, usingEndpointCreds: bool, now: int)
    requires !usingEndpointCreds || ep.credsExpire <= 0 ||
             (ep.credentials != "" && cache.updated.Some? && now - cache.updated.value >= ep.credsExpire)
    ensures Refused(ep, cache, usingEndpointCreds, now) == cache
  {
  }

  // ---------------------------------------------------------------------------------------------
  // The endpoint
  // ---------------------------------------------------------------------------------------------

  /** A call has returned a pair. */
  predicate EndsWith(s: State, f: nat, pair: Credential) {
    f < |s.flights| && s.flights[f].Returned? && s.flights[f].pair == pair
  }

  /** The steps of a call by itself: a beginning, a look, and a fetch if need be. */
  function CallSteps(ep: Endpoint, s: State, secret: string, now: int, fetched: Option<(string, string)>,
                     later: int): seq<Step> {
    var f, looked := |s.flights|, Looked(ep, Expired(ep, s.cache, now), secret, now);
    if looked.Returned? then [Begin(secret, now), Look(f)]
    else if fetched.None? then [Begin(secret, now), Look(f), FetchFails(f)]
    else [Begin(secret, now), Look(f), FetchEnds(f, fetched.value.0, fetched.value.1), Finish(f, later)]
  }

  /** What a call by itself returns and leaves in the cache. */
  ghost predicate CallGives(ep: Endpoint, s: State, secret: string, now: int, fetched: Option<(string, string)>,
                            later: int,
                            r: Option<Credential>, cache: Cache) {
    var end := Run(ep, s, CallSteps(ep, s, secret, now, fetched, later));
    && end.Some? && end.value.cache == cache
    && (r.Some? ==> EndsWith(end.value, |s.flights|, r.value))
  }

  lemma RunLook(ep: Endpoint, s: State, secret: string, now: int)
    requires Enabled(ep, s, Begin(secret, now))
    ensures var end := Run(ep, s, [Begin(secret, now), Look(|s.flights|)]);
            && end.Some? && end.value.clock == now && end.value.cache == Expired(ep, s.cache, now)
            && |end.value.flights| == |s.flights| + 1
            && end.value.flights[|s.flights|] == Looked(ep, Expired(ep, s.cache, now), secret, now)
  {
    RunMore(ep, s, [], Begin(secret, now));
    RunMore(ep, s, [Begin(secret, now)], Look(|s.flights|));
    assert [] + [Begin(secret, now)] == [Begin(secret, now)];
    assert [Begin(secret, now)] + [Look(|s.flights|)] == [Begin(secret, now), Look(|s.flights|)];
  }

  lemma RunFetch(ep: Endpoint, s: State, secret: string, now: int, username: string, password: string, later: int)
    requires Enabled(ep, s, Begin(secret, now)) && now <= later
    requires Looked(ep, Expired(ep, s.cache, now), secret, now).Fetching?
    ensures var f, pair := |s.flights|, Credential(username, password, Source(ep, secret));
            var end := Run(ep, s, [Begin(secret, now), Look(f), FetchEnds(f, username, password), Finish(f, later)]);
            && end.Some? && EndsWith(end.value, f, pair)
            && end.value.cache == Stored(Expired(ep, s.cache, now), secret == "", pair, later)
  {
    var f := |s.flights|;
    var two, three := [Begin(secret, now), Look(f)], [Begin(secret, now), Look(f), FetchEnds(f, username, password)];
    RunLook(ep, s, secret, now);
    RunMore(ep, s, two, FetchEnds(f, username, password));
    assert two + [FetchEnds(f, username, password)] == three;
    RunMore(ep, s, three, Finish(f, later));
    assert three + [Finish(f, later)] ==
           [Begin(secret, now), Look(f), FetchEnds(f, username, password), Finish(f, later)];
  }

  lemma RunFailure(ep: Endpoint, s: State, secret: string, now: int)
    requires Enabled(ep, s, Begin(secret, now)) && Looked(ep, Expired(ep, s.cache, now), secret, now).Fetching?
    ensures var end := Run(ep, s, [Begin(secret, now), Look(|s.flights|), FetchFails(|s.flights|)]);
            end.Some? && end.value.cache == Expired(ep, s.cache, now)
  {
    var f := |s.flights|;
    RunLook(ep, s, secret, now);
    RunMore(ep, s, [Begin(secret, now), Look(f)], FetchFails(f));
    assert [Begin(secret, now), Look(f)] + [FetchFails(f)] == [Begin(secret, now), Look(f), FetchFails(f)];
  }

  class RegistryEndpoint {
    const config: Endpoint
    var cache: Cache

    ghost predicate Valid()
      reads this
    {
      CacheInv(config, cache)
    }

    constructor (config: Endpoint)
      ensures this.config == config && Valid() && IsEmpty(cache.pair)
    {
      this.config, cache := config, Cache(NO_CREDENTIAL, None);
    }

    /**
     One call by itself, from `now` to `later`; `fetched` is what the source gives, None if it fails. What
     is returned comes from the caller's own source. A pull secret leaves the cached pair alone, unless it
     has expired; without one, what is returned is what is cached, and was not expired at `now`. The call
     is one of those of the state machine, in any state `s` in which it may begin.
     */
    method SetEndpointCredentialsInternal(secretVal: string, now: int, fetched: Option<(string, string)>, later: int,
                                          ghost s: State)
      returns (r: Option<Credential>)
      requires Valid() && now <= later && s.cache == cache && Enabled(config, s, Begin(secretVal, now))
      modifies this
      ensures Valid()
      ensures r.Some? ==> IsEmpty(r.value) || r.value.source == Source(config, secretVal)
      ensures secretVal != "" || r.None? ==>
                cache.updated == old(cache).updated && (cache.pair == old(cache).pair || IsEmpty(cache.pair))
      ensures secretVal == "" && r.Some? ==> cache.pair == r.value
      ensures secretVal == "" && r.Some? ==> Fresh(config, cache, now)
      ensures CallGives(config, s, secretVal, now, fetched, later, r, cache)
      // A pair that is usable and young enough is returned whatever the source would give.
      ensures secretVal == "" && old(cache).pair.username != "" && old(cache).pair.password != "" &&
              (config.credsExpire <= 0 || now - old(cache).updated.value < config.credsExpire) ==>
                r == Some(old(cache).pair) && cache == old(cache)
      // Otherwise the source decides, and its answer is cached unless it is a pull secret.
      ensures secretVal != "" ==>
                r == if fetched.None? then None else Some(Credential(fetched.value.0, fetched.value.1, secretVal))
      ensures secretVal == "" && config.credentials != "" &&
              (old(cache).pair.username == "" || old(cache).pair.password == "" ||
               (config.credsExpire > 0 && now - old(cache).updated.value >= config.credsExpire)) ==>
                if fetched.None? then r == None
                else && r == Some(Credential(fetched.value.0, fetched.value.1, config.credentials))
                     && cache == Cache(r.value, Some(later))
    {
      if CredsExpiredByTime(config, cache, now) {
        cache := cache.(pair := NO_CREDENTIAL);
      }
      var creds := cache.pair;
      var useCachedEndpointCreds := secretVal == "" && cache.pair.username != "" && cache.pair.password != "";
      if !useCachedEndpointCreds && (config.credentials != "" || secretVal != "") {
        var fetchForEndpoint := secretVal == "";
        if fetched.None? {
          RunFailure(config, s, secretVal, now);
          return None;
        }
        creds := Credential(fetched.value.0, fetched.value.1,
                            if secretVal == "" then config.credentials else secretVal);
        if fetchForEndpoint {
          cache := Cache(creds, Some(later));
        }
        RunFetch(config, s, secretVal, now, creds.username, creds.password, later);
      } else {
        RunLook(config, s, secretVal, now);
      }
      return Some(creds);
    }
  }
}

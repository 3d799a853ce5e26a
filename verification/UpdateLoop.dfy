/**
 The image loop of one application (pkg/argocd/update.go).

 What the registry and the signature check answer is given per image. The application is a state that
 the loop reads and writes through the two functions of each image, whatever its type. The trace
 records the calls that matter for safety, in the order the loop makes them.
 */
module UpdateLoop {
  import opened Options
  import opened ImageRef
  import opened Repositories
  import opened Sequences

  datatype Attempt = Success | Refusal | Failure

  datatype Newest = NewestError | NoSuitableTag | NewestTag(tag: Tag)

  datatype Verification = NotEnabled | NoMethod | KeyAccepts | KeyRejects

  /** One configured image, the answers given for it, and its place in an application of type `S`. */
  datatype ImageConfig<!S> = ImageConfig(
    image: Image,
    // The repositories of its Kustomize override, innermost first; empty without one.
    kustomize: seq<Repository>,
    digestStrategy: bool,
    // The answers, in the order they are asked for.
    endpoint: bool,
    foreignPullSecret: bool,
    credentials: bool,
    client: bool,
    tags: Attempt,
    // Asked for again after the registry has refused the credentials.
    retriedCredentials: bool,
    retriedClient: bool,
    retriedTags: bool,
    newest: Newest,
    verification: Verification,
    // getAppImage and setAppImage; None is an error
    get: S -> Option<string>,
    put: (S, Image) -> Option<S>)

  datatype ChangeEntry = ChangeEntry(index: nat, image: Image, oldTag: Tag, newTag: Tag)

  datatype Result = Result(skipped: nat, considered: nat, errors: nat, updated: nat, changes: seq<ChangeEntry>)

  /** A call made by the loop for the image at an index; `update` tells a new tag from one that is kept. */
  datatype Event =
    | Verified(index: nat, ok: bool)
    | SetImage(index: nat, image: Image, update: bool, ok: bool)
    | Committed(changes: seq<ChangeEntry>)

  const NO_TAG := Tag("", "")

  function WithTag(img: Image, tag: Tag): Image {
    img.(tag := Some(tag))
  }

  function TagOf(img: Image): Tag {
    if img.tag.Some? then img.tag.value else NO_TAG
  }

  // ---------------------------------------------------------------------------------------------
  // What becomes of an image
  // ---------------------------------------------------------------------------------------------

  /** ImageTag.Equals: by digest if either has one, else by name. */
  predicate Equals(a: Tag, b: Tag) {
    if a.digest != "" || b.digest != "" then a.digest == b.digest else a.name == b.name
  }

  predicate DiffersFrom(a: Image, b: Image) {
    !SameRepository(a, b)
  }

  /** needsUpdate, for a live image whose missing tag has been filled in. */
  predicate NeedsUpdate<S>(liveTag: Tag, live: Image, c: ImageConfig<S>, latest: Tag) {
    || (c.digestStrategy && (liveTag.digest == "" || liveTag.digest != latest.digest))
    || !Equals(liveTag, latest)
    || (c.kustomize != [] && DiffersFrom(c.image, live))
  }

  /** Once the latest tag runs, no update is needed: always for names, for digests if there is one. */
  lemma UpToDate<S>(live: Image, c: ImageConfig<S>, latest: Tag)
    requires !DiffersFrom(c.image, live)
    ensures NeedsUpdate(latest, live, c, latest) <==> c.digestStrategy && latest.digest == ""
  {
  }

  /** How far the answers of the registry let the loop go: to a tag, to none, or to an error. */
  function LatestTag<S>(c: ImageConfig<S>): Newest {
    if !c.endpoint || c.foreignPullSecret || !c.credentials || !c.client || c.tags.Failure? then NewestError
    else if c.tags.Refusal? && (!c.retriedCredentials || !c.retriedClient || !c.retriedTags) then NewestError
    else c.newest
  }

  predicate VerificationPassed(v: Verification) {
    v.NotEnabled? || v.KeyAccepts?
  }

  function RepositoryOf(img: Image): Repository {
    Repository(img.registry, img.name)
  }

  /** The live image of a configured one: that of its Kustomize override, else its own. */
  function LiveImage<S>(lives: seq<Image>, c: ImageConfig<S>): Option<Image> {
    var k := FindLive(Map(lives, RepositoryOf), c.kustomize + [RepositoryOf(c.image)]);
    if k < |lives| then Some(lives[k]) else None
  }

  /** The live image an image is compared with: under the digest strategy that of its own container, if there is one. */
  function LiveOf<S>(lives: seq<Image>, c: ImageConfig<S>): Option<Image> {
    var found, newest := LiveImage(lives, c), LatestTag(c);
    if found.None? || !c.digestStrategy || !newest.NewestTag? then found
    else
      var best := BestMatch(lives, c.image, newest.tag.digest);
      if best.Some? then best else found
  }

  /** The tag an up-to-date image is written with: a digest without a name gets the tracked name back. */
  function KeptTag<S>(c: ImageConfig<S>, liveTag: Tag): Tag {
    if c.digestStrategy && c.image.tag.Some? && c.image.tag.value.name != "" && liveTag.name == "" then
      Tag(c.image.tag.value.name, liveTag.digest)
    else liveTag
  }

  datatype Fate =
    | NotLive | RegistryError | NoTag | SpecError | AlreadySet | Unverified | UpdateError | Updated | KeepError | Kept

  /** What the live images and the registry say of an image, before the application is looked at. */
  datatype Outlook = Nothing(fate: Fate) | Keeping(image: Image) | Updating(image: Image, oldTag: Tag, newTag: Tag)

  function OutlookOf<S>(lives: seq<Image>, c: ImageConfig<S>): Outlook {
    var live := LiveOf(lives, c);
    if live.None? then Nothing(NotLive)
    else
      match LatestTag(c)
      case NewestError => Nothing(RegistryError)
      case NoSuitableTag => Nothing(NoTag)
      case NewestTag(latest) =>
        if NeedsUpdate(TagOf(live.value), live.value, c, latest) then
          Updating(WithTag(c.image, latest), TagOf(live.value), latest)
        else Keeping(WithTag(c.image, KeptTag(c, TagOf(live.value))))
  }

  function Outlooks<S>(lives: seq<Image>, images: seq<ImageConfig<S>>): (r: seq<Outlook>)
    ensures |r| == |images|
  {
    FirstOutlooks(lives, images, |images|)
  }

  function FirstOutlooks<S>(lives: seq<Image>, images: seq<ImageConfig<S>>, n: nat): (r: seq<Outlook>)
    requires n <= |images|
    ensures |r| == n
  {
    if n == 0 then [] else FirstOutlooks(lives, images, n - 1) + [OutlookOf(lives, images[n - 1])]
  }

  lemma OutlookAt<S>(lives: seq<Image>, images: seq<ImageConfig<S>>, i: nat)
    requires i < |images|
    ensures Outlooks(lives, images)[i] == OutlookOf(lives, images[i])
  {
    OutlookAmongFirst(lives, images, |images|, i);
  }

  lemma {:induction false} OutlookAmongFirst<S>(lives: seq<Image>, images: seq<ImageConfig<S>>, n: nat, i: nat)
    requires i < n <= |images|
    ensures FirstOutlooks(lives, images, n)[i] == OutlookOf(lives, images[i])
  {
    if i < n - 1 {
      OutlookAmongFirst(lives, images, n - 1, i);
    }
  }

  /** The live image is the first of the first repository that runs, Kustomize overrides before the image's own. */
  lemma LiveImageIs<S>(lives: seq<Image>, c: ImageConfig<S>, j: nat)
    requires j <= |c.kustomize|
    requires var r := if j < |c.kustomize| then c.kustomize[j] else Repository(c.image.registry, c.image.name);
             exists x :: x in lives && Repository(x.registry, x.name) == r
    requires forall i, x :: 0 <= i < j && x in lives ==> Repository(x.registry, x.name) != c.kustomize[i]
    ensures var r := if j < |c.kustomize| then c.kustomize[j] else Repository(c.image.registry, c.image.name);
            var found := LiveImage(lives, c);
            && found.Some? && Repository(found.value.registry, found.value.name) == r
            && exists k :: 0 <= k < |lives| && lives[k] == found.value &&
                           forall i :: 0 <= i < k ==> Repository(lives[i].registry, lives[i].name) != r
  {
    var repositories, wanted := Map(lives, RepositoryOf), c.kustomize + [RepositoryOf(c.image)];
    var x :| x in lives && RepositoryOf(x) == wanted[j];
    var k :| 0 <= k < |lives| && lives[k] == x;
    assert repositories[k] == wanted[j];
    FindLiveIs(repositories, wanted, j);
    assert repositories[FindLive(repositories, wanted)] == RepositoryOf(lives[FindLive(repositories, wanted)]);
    assert forall i :: 0 <= i < |lives| ==> repositories[i] == RepositoryOf(lives[i]);
  }

  /**
   The live image that counts is the one found, but under the digest strategy one of the image's own repository that
   runs the tracked tag or an older digest, if there is one: tracked before older, and of the tracked an older one.
   */
  lemma LiveOfIs<S>(lives: seq<Image>, c: ImageConfig<S>)
    requires LiveImage(lives, c).Some?
    ensures LiveOf(lives, c).Some?
    ensures !c.digestStrategy || !LatestTag(c).NewestTag? ==> LiveOf(lives, c) == LiveImage(lives, c)
    ensures c.digestStrategy && LatestTag(c).NewestTag? ==>
              var r, digest := LiveOf(lives, c).value, LatestTag(c).tag.digest;
              if exists x :: x in lives && (Tracks(c.image, x) || RunsOlder(c.image, x, digest)) then
                && r in lives && r.registry == c.image.registry && r.name == c.image.name
                && ((exists x :: x in lives && Tracks(c.image, x)) ==> Tracks(c.image, r))
                && ((exists x :: x in lives && Tracks(c.image, x) && RunsOlder(c.image, x, digest)) ==>
                      RunsOlder(c.image, r, digest))
                && (Tracks(c.image, r) || RunsOlder(c.image, r, digest))
              else Some(r) == LiveImage(lives, c)
  {
    if c.digestStrategy && LatestTag(c).NewestTag? {
      BestMatchIs(lives, c.image, LatestTag(c).tag.digest);
    }
  }

  /** The newest tag is asked for once the tags are listed, at the first attempt or after a refusal at the second. */
  lemma LatestIfListed<S>(c: ImageConfig<S>)
    ensures LatestTag(c) ==
            if && c.endpoint && !c.foreignPullSecret && c.credentials && c.client
               && (c.tags == Success ||
                   (c.tags == Refusal && c.retriedCredentials && c.retriedClient && c.retriedTags))
            then c.newest else NewestError
  {
  }

  /** What runs is the newest: by digest if either has one, else by name, from the configured repository. */
  predicate RunsNewest<S>(live: Image, c: ImageConfig<S>, latest: Tag) {
    var digest := if live.tag == None then "" else live.tag.value.digest;
    var name := if live.tag == None then "" else live.tag.value.name;
    && (digest != "" || latest.digest != "" ==> digest == latest.digest)
    && (digest == "" && latest.digest == "" ==> name == latest.name)
    && (c.digestStrategy ==> digest != "")
    && (|c.kustomize| > 0 ==> live.registry == c.image.registry && live.name == c.image.name)
  }

  /** An image is kept exactly if the newest runs; otherwise it is updated to the newest from what runs. */
  lemma KeptIfNewestRuns<S>(lives: seq<Image>, c: ImageConfig<S>)
    requires LiveOf(lives, c).Some? && LatestTag(c).NewestTag?
    ensures var o, live, latest := OutlookOf(lives, c), LiveOf(lives, c).value, LatestTag(c).tag;
            && (o.Keeping? <==> RunsNewest(live, c, latest))
            && (o.Updating? <==> !RunsNewest(live, c, latest))
            && (o.Updating? ==>
                  && o.image == Image(c.image.alias, c.image.registry, c.image.name, Some(latest))
                  && o.newTag == latest && (live.tag.Some? ==> o.oldTag == live.tag.value))
  {
  }

  /**
   An image is kept with the digest that runs and the name that runs; if that has no name, under the digest strategy
   with the name that is tracked. If the newest tag has a name, the tag has a name or a digest.
   */
  lemma KeptTagName<S>(lives: seq<Image>, c: ImageConfig<S>)
    requires OutlookOf(lives, c).Keeping?
    ensures LiveOf(lives, c).Some? && LatestTag(c).NewestTag?
    ensures var running, kept := TagOf(LiveOf(lives, c).value), TagOf(OutlookOf(lives, c).image);
            && OutlookOf(lives, c).image == Image(c.image.alias, c.image.registry, c.image.name, Some(kept))
            && kept.digest == running.digest
            && (running.name != "" || !c.digestStrategy || c.image.tag.None? ==> kept.name == running.name)
            && (running.name == "" && c.digestStrategy && c.image.tag.Some? ==> kept.name == c.image.tag.value.name)
            && (LatestTag(c).tag.name != "" ==> kept.name != "" || kept.digest != "")
  {
  }

  /**
   Once the newest tag runs, an image is kept with it, unless digests are compared and there is none: that is
   updated for ever.
   */
  lemma RolledOut<S>(lives: seq<Image>, c: ImageConfig<S>, latest: Tag)
    requires LatestTag(c) == NewestTag(latest) && latest.name != "" && LiveOf(lives, c).Some?
    requires TagOf(LiveOf(lives, c).value) == latest && SameRepository(c.image, LiveOf(lives, c).value)
    ensures OutlookOf(lives, c) ==
            if c.digestStrategy && latest.digest == "" then Updating(WithTag(c.image, latest), latest, latest)
            else Keeping(WithTag(c.image, latest))
  {
    UpToDate(LiveOf(lives, c).value, c, latest);
  }

  /** What becomes of an image in an application in state `s`. */
  function FateOf<S>(o: Outlook, c: ImageConfig<S>, s: S): Fate {
    match o
    case Nothing(fate) => fate
    case Keeping(image) => if c.put(s, image).Some? then Kept else KeepError
    case Updating(image, _, _) =>
      if c.get(s).None? then SpecError
      else if c.get(s).value == GetFullNameWithTag(image) then AlreadySet
      else if !VerificationPassed(c.verification) then Unverified
      else if c.put(s, image).Some? then Updated else UpdateError
  }

  /** The state of the application after an image. */
  function After<S>(o: Outlook, c: ImageConfig<S>, s: S): S {
    if o.Nothing? then s
    else if FateOf(o, c, s) in {Updated, Kept} && c.put(s, o.image).Some? then c.put(s, o.image).value
    else s
  }

  /** The state of the application after the first `n` images. */
  function StateAt<S>(outs: seq<Outlook>, images: seq<ImageConfig<S>>, s: S, n: nat): S
    requires n <= |images| == |outs|
  {
    if n == 0 then s else After(outs[n - 1], images[n - 1], StateAt(outs, images, s, n - 1))
  }

  function FateAt<S>(outs: seq<Outlook>, images: seq<ImageConfig<S>>, s: S, i: nat): Fate
    requires i < |images| == |outs|
  {
    FateOf(outs[i], images[i], StateAt(outs, images, s, i))
  }

  /** The fates of the first `n` images. */
  function Fates<S>(outs: seq<Outlook>, images: seq<ImageConfig<S>>, s: S, n: nat): (r: seq<Fate>)
    requires n <= |images| == |outs|
    ensures |r| == n
  {
    if n == 0 then [] else Fates(outs, images, s, n - 1) + [FateAt(outs, images, s, n - 1)]
  }

  lemma {:induction false} FatesAt<S>(outs: seq<Outlook>, images: seq<ImageConfig<S>>, s: S, n: nat, i: nat)
    requires i < n <= |images| == |outs|
    ensures Fates(outs, images, s, n)[i] == FateAt(outs, images, s, i)
  {
    if i < n - 1 {
      FatesAt(outs, images, s, n - 1, i);
    }
  }

  /** How many of the first `n` fates are among a set. */
  function Count(fates: seq<Fate>, among: set<Fate>, n: nat): (r: nat)
    requires n <= |fates|
    ensures r <= n
  {
    if n == 0 then 0 else Count(fates, among, n - 1) + if fates[n - 1] in among then 1 else 0
  }

  lemma {:induction false} CountNone(fates: seq<Fate>, among: set<Fate>, n: nat)
    requires n <= |fates|
    ensures Count(fates, among, n) == 0 <==> forall i :: 0 <= i < n ==> fates[i] !in among
  {
    if n > 0 {
      CountNone(fates, among, n - 1);
    }
  }

  const SKIPPED := {NotLive, NoTag}
  const ERRORS := {RegistryError, Unverified, UpdateError, KeepError}
  const SILENT := {SpecError, AlreadySet, Kept}

  /** An image that is not live or has no suitable tag is skipped; what fails or is refused is an error. */
  lemma FateCounts(f: Fate)
    ensures f in SKIPPED <==> f == NotLive || f == NoTag
    ensures f in ERRORS <==> f == RegistryError || f == Unverified || f == UpdateError || f == KeepError
    ensures f in SILENT <==> f == SpecError || f == AlreadySet || f == Kept
  {
  }

  lemma {:induction false} FatesPartition(fates: seq<Fate>, n: nat)
    requires n <= |fates|
    ensures Count(fates, SKIPPED, n) + Count(fates, ERRORS, n) + Count(fates, {Updated}, n) +
            Count(fates, SILENT, n) == n
  {
    if n > 0 {
      FatesPartition(fates, n - 1);
      InOneGroup(fates[n - 1]);
    }
  }

  lemma InOneGroup(f: Fate)
    ensures f in SKIPPED || f in ERRORS || f in {Updated} || f in SILENT
    ensures !(f in SKIPPED && f in ERRORS) && !(f in SKIPPED && f in {Updated}) && !(f in SKIPPED && f in SILENT)
    ensures !(f in ERRORS && f in {Updated}) && !(f in ERRORS && f in SILENT) && !(f in {Updated} && f in SILENT)
  {
    match f {
      case NotLive => case RegistryError => case NoTag => case SpecError => case AlreadySet =>
      case Unverified => case UpdateError => case Updated => case KeepError => case Kept =>
    }
  }

  // ---------------------------------------------------------------------------------------------
  // What the trace shows
  // ---------------------------------------------------------------------------------------------

  /** If the event is an update of an image with verification enabled, it follows a verification that accepted it. */
  predicate VerifiedBefore<S>(images: seq<ImageConfig<S>>, trace: seq<Event>, k: nat)
    requires k < |trace|
  {
    var e := trace[k];
    e.SetImage? && e.update ==>
      && e.index < |images|
      && (!images[e.index].verification.NotEnabled? ==>
            k > 0 && trace[k - 1] == Verified(e.index, true) && images[e.index].verification.KeyAccepts?)
  }

  predicate VerifiedFirst<S>(images: seq<ImageConfig<S>>, trace: seq<Event>) {
    forall k :: 0 <= k < |trace| ==> VerifiedBefore(images, trace, k)
  }

  lemma VerifiedMore<S>(images: seq<ImageConfig<S>>, trace: seq<Event>, e: Event)
    requires VerifiedFirst(images, trace) && VerifiedBefore(images, trace + [e], |trace|)
    ensures VerifiedFirst(images, trace + [e])
  {
    forall k | 0 <= k < |trace| ensures VerifiedBefore(images, trace + [e], k) {
      assert VerifiedBefore(images, trace, k);
    }
  }

  /** An image is set as its outlook says, and only if that is its fate. */
  predicate SetRightly<S>(outs: seq<Outlook>, images: seq<ImageConfig<S>>, s: S, e: Event)
    requires |outs| == |images|
  {
    e.SetImage? ==>
      && e.index < |images|
      && (var o, fate := outs[e.index], FateAt(outs, images, s, e.index);
          if e.update then fate == (if e.ok then Updated else UpdateError) && o.Updating? && o.image == e.image
          else fate == (if e.ok then Kept else KeepError) && o.Keeping? && o.image == e.image)
  }

  predicate AllSetRightly<S>(outs: seq<Outlook>, images: seq<ImageConfig<S>>, s: S, trace: seq<Event>)
    requires |outs| == |images|
  {
    forall k :: 0 <= k < |trace| ==> SetRightly(outs, images, s, trace[k])
  }

  /** The change was set, to the image and the newest tag, in place of the tag that runs. */
  predicate ChangeWasSet(outs: seq<Outlook>, trace: seq<Event>, change: ChangeEntry) {
    && change.index < |outs| && outs[change.index] == Updating(change.image, change.oldTag, change.newTag)
    && SetImage(change.index, change.image, true, true) in trace
  }

  /** A successful update is reported as a change. */
  predicate UpdateIsReported(e: Event, changes: seq<ChangeEntry>) {
    e.SetImage? && e.update && e.ok ==>
      exists j :: 0 <= j < |changes| && changes[j].index == e.index && changes[j].image == e.image
  }

  /** The changes are exactly the successful updates, in the order of the images. */
  predicate ChangesWereSet(outs: seq<Outlook>, trace: seq<Event>, changes: seq<ChangeEntry>) {
    && (forall j {:trigger ChangeWasSet(outs, trace, changes[j])} :: 0 <= j < |changes| ==>
          ChangeWasSet(outs, trace, changes[j]))
    && (forall k {:trigger UpdateIsReported(trace[k], changes)} :: 0 <= k < |trace| ==>
          UpdateIsReported(trace[k], changes))
    && (forall j, k :: 0 <= j < k < |changes| ==> changes[j].index < changes[k].index)
  }

  lemma ChangesMore(outs: seq<Outlook>, trace: seq<Event>, changes: seq<ChangeEntry>, change: ChangeEntry)
    requires ChangesWereSet(outs, trace, changes)
    requires forall j :: 0 <= j < |changes| ==> changes[j].index < change.index
    requires ChangeWasSet(outs, trace + [SetImage(change.index, change.image, true, true)], change)
    ensures ChangesWereSet(outs, trace + [SetImage(change.index, change.image, true, true)], changes + [change])
  {
    var changes', trace' := changes + [change], trace + [SetImage(change.index, change.image, true, true)];
    forall j | 0 <= j < |changes'| ensures ChangeWasSet(outs, trace', changes'[j]) {
      if j < |changes| {
        assert ChangeWasSet(outs, trace, changes[j]);
      }
    }
    forall k | 0 <= k < |trace'| ensures UpdateIsReported(trace'[k], changes') {
      if k < |trace| {
        ReportedStill(trace[k], changes, change);
      } else {
        assert changes'[|changes|] == change;
      }
    }
  }

  lemma ReportedStill(e: Event, changes: seq<ChangeEntry>, change: ChangeEntry)
    requires UpdateIsReported(e, changes)
    ensures UpdateIsReported(e, changes + [change])
  {
    if e.SetImage? && e.update && e.ok {
      var j :| 0 <= j < |changes| && changes[j].index == e.index && changes[j].image == e.image;
      assert (changes + [change])[j] == changes[j];
    }
  }

  lemma ChangesStay(outs: seq<Outlook>, trace: seq<Event>, changes: seq<ChangeEntry>, e: Event)
    requires ChangesWereSet(outs, trace, changes) && UpdateIsReported(e, changes)
    ensures ChangesWereSet(outs, trace + [e], changes)
  {
    forall j | 0 <= j < |changes| ensures ChangeWasSet(outs, trace + [e], changes[j]) {
      assert ChangeWasSet(outs, trace, changes[j]);
    }
  }

  // ---------------------------------------------------------------------------------------------
  // What every round of the loop keeps
  // ---------------------------------------------------------------------------------------------

  /** The counters after the first `n` images. */
  predicate Tallied(fates: seq<Fate>, n: nat, r: Result)
    requires n <= |fates|
  {
    && r.considered + Count(fates, {NotLive}, n) == n
    && r.skipped == Count(fates, SKIPPED, n) && r.errors == Count(fates, ERRORS, n)
    && r.updated == |r.changes| == Count(fates, {Updated}, n)
  }

  predicate Traced<S>(outs: seq<Outlook>, images: seq<ImageConfig<S>>, s: S, changes: seq<ChangeEntry>,
                      trace: seq<Event>)
    requires |outs| == |images|
  {
    && (forall k :: 0 <= k < |trace| ==> !trace[k].Committed?)
    && VerifiedFirst(images, trace) && AllSetRightly(outs, images, s, trace) && ChangesWereSet(outs, trace, changes)
  }

  predicate LoopInv<S>(fates: seq<Fate>, outs: seq<Outlook>, images: seq<ImageConfig<S>>, s: S, i: nat, r: Result,
                       trace: seq<Event>, needUpdate: bool)
    requires i <= |images| == |outs| == |fates|
  {
    && Tallied(fates, i, r) && Traced(outs, images, s, r.changes, trace)
    && (r.changes != [] ==> needUpdate)
    && (forall j :: 0 <= j < |r.changes| ==> r.changes[j].index < i)
  }

  /** Counting an image that is not updated. */
  lemma Counted(fates: seq<Fate>, n: nat, r: Result, r': Result)
    requires n < |fates| && Tallied(fates, n, r) && !fates[n].Updated?
    requires r'.changes == r.changes && r'.updated == r.updated
    requires r'.considered == r.considered + if fates[n].NotLive? then 0 else 1
    requires r'.skipped == r.skipped + if fates[n] in SKIPPED then 1 else 0
    requires r'.errors == r.errors + if fates[n] in ERRORS then 1 else 0
    ensures Tallied(fates, n + 1, r')
  {
  }

  lemma CountedUpdate(fates: seq<Fate>, n: nat, r: Result, change: ChangeEntry)
    requires n < |fates| && Tallied(fates, n, r) && fates[n].Updated?
    ensures Tallied(fates, n + 1, r.(considered := r.considered + 1, updated := r.updated + 1,
                                     changes := r.changes + [change]))
  {
  }

  /** An event that is no successful update and no commit. */
  lemma Recorded<S>(outs: seq<Outlook>, images: seq<ImageConfig<S>>, s: S, changes: seq<ChangeEntry>, trace: seq<Event>,
                    e: Event)
    requires |outs| == |images| && Traced(outs, images, s, changes, trace) && !e.Committed?
    requires SetRightly(outs, images, s, e)
    requires VerifiedBefore(images, trace + [e], |trace|) && !(e.SetImage? && e.update && e.ok)
    ensures Traced(outs, images, s, changes, trace + [e])
  {
    VerifiedMore(images, trace, e);
    ChangesStay(outs, trace, changes, e);
  }

  /** A successful update and its change. */
  lemma RecordedUpdate<S>(outs: seq<Outlook>, images: seq<ImageConfig<S>>, s: S, changes: seq<ChangeEntry>,
                          trace: seq<Event>, change: ChangeEntry)
    requires |outs| == |images| && Traced(outs, images, s, changes, trace)
    requires (forall j :: 0 <= j < |changes| ==> changes[j].index < change.index)
    requires var e := SetImage(change.index, change.image, true, true);
             && SetRightly(outs, images, s, e) && VerifiedBefore(images, trace + [e], |trace|)
             && ChangeWasSet(outs, trace + [e], change)
    ensures Traced(outs, images, s, changes + [change], trace + [SetImage(change.index, change.image, true, true)])
  {
    VerifiedMore(images, trace, SetImage(change.index, change.image, true, true));
    ChangesMore(outs, trace, changes, change);
  }

  // ---------------------------------------------------------------------------------------------
  // The loop
  // ---------------------------------------------------------------------------------------------

  /** Setting an image that needs an update and may have it. */
  method Update<S>(ghost fates: seq<Fate>, ghost outs: seq<Outlook>, images: seq<ImageConfig<S>>, ghost s: S, i: nat,
                   state: S, newImage: Image, oldTag: Tag, latest: Tag,
                   r: Result, trace: seq<Event>)
    returns (r': Result, trace': seq<Event>, state': S)
    requires i < |images| == |outs| == |fates| && fates[i] == FateAt(outs, images, s, i)
    requires state == StateAt(outs, images, s, i) && outs[i] == Updating(newImage, oldTag, latest)
    requires fates[i] in {Updated, UpdateError} && LoopInv(fates, outs, images, s, i, r, trace, true)
    requires !images[i].verification.NotEnabled? ==>
               images[i].verification.KeyAccepts? && trace != [] && trace[|trace| - 1] == Verified(i, true)
    ensures LoopInv(fates, outs, images, s, i + 1, r', trace', true) && state' == StateAt(outs, images, s, i + 1)
  {
    var set_ := images[i].put(state, newImage);
    var event := SetImage(i, newImage, true, set_.Some?);
    trace' := trace + [event];
    if set_.None? {
      r', state' := r.(considered := r.considered + 1, errors := r.errors + 1), state;
      Recorded(outs, images, s, r.changes, trace, event);
      Counted(fates, i, r, r');
    } else {
      var change := ChangeEntry(i, newImage, oldTag, latest);
      r', state' := r.(considered := r.considered + 1, updated := r.updated + 1, changes := r.changes + [change]),
        set_.value;
      RecordedUpdate(outs, images, s, r.changes, trace, change);
      CountedUpdate(fates, i, r, change);
    }
  }

  /** The branch for an outdated image. */
  method Outdated<S>(ghost fates: seq<Fate>, ghost outs: seq<Outlook>, images: seq<ImageConfig<S>>, ghost s: S, i: nat,
                     state: S, newImage: Image, oldTag: Tag, latest: Tag,
                     r: Result, trace: seq<Event>, needUpdate: bool)
    returns (r': Result, trace': seq<Event>, needUpdate': bool, state': S)
    requires i < |images| == |outs| == |fates| && fates[i] == FateAt(outs, images, s, i)
    requires state == StateAt(outs, images, s, i) && outs[i] == Updating(newImage, oldTag, latest)
    requires LoopInv(fates, outs, images, s, i, r, trace, needUpdate)
    ensures LoopInv(fates, outs, images, s, i + 1, r', trace', needUpdate') && state' == StateAt(outs, images, s, i + 1)
  {
    var c := images[i];
    r', trace', needUpdate', state' := r.(considered := r.considered + 1), trace, needUpdate, state;
    var inSpec := c.get(state);
    if inSpec.None? || inSpec.value == GetFullNameWithTag(newImage) {
      Counted(fates, i, r, r');
      return;
    }
    if c.verification.NoMethod? {
      r' := r'.(errors := r'.errors + 1);
      Counted(fates, i, r, r');
      return;
    }
    if !c.verification.NotEnabled? {
      trace' := trace + [Verified(i, c.verification.KeyAccepts?)];
      Recorded(outs, images, s, r.changes, trace, Verified(i, c.verification.KeyAccepts?));
      if c.verification.KeyRejects? {
        r' := r'.(errors := r'.errors + 1);
        Counted(fates, i, r, r');
        return;
      }
    }
    needUpdate' := true;
    r', trace', state' := Update(fates, outs, images, s, i, state, newImage, oldTag, latest, r, trace');
  }

  /** The branch for an image that is up to date: it is written as it runs. */
  method Keep<S>(ghost fates: seq<Fate>, ghost outs: seq<Outlook>, images: seq<ImageConfig<S>>, ghost s: S, i: nat,
                 state: S, kept: Image,
                 r: Result, trace: seq<Event>, ghost needUpdate: bool)
    returns (r': Result, trace': seq<Event>, state': S)
    requires i < |images| == |outs| == |fates| && fates[i] == FateAt(outs, images, s, i)
    requires state == StateAt(outs, images, s, i) && outs[i] == Keeping(kept)
    requires LoopInv(fates, outs, images, s, i, r, trace, needUpdate)
    ensures LoopInv(fates, outs, images, s, i + 1, r', trace', needUpdate) && state' == StateAt(outs, images, s, i + 1)
  {
    var set_ := images[i].put(state, kept);
    var event := SetImage(i, kept, false, set_.Some?);
    trace' := trace + [event];
    r' := r.(considered := r.considered + 1, errors := r.errors + if set_.None? then 1 else 0);
    state' := if set_.Some? then set_.value else state;
    Recorded(outs, images, s, r.changes, trace, event);
    Counted(fates, i, r, r');
  }

  /** One round of the loop. */
  method Consider<S>(lives: seq<Image>, ghost fates: seq<Fate>, ghost outs: seq<Outlook>, images: seq<ImageConfig<S>>,
                     ghost s: S, i: nat, state: S,
                     r: Result, trace: seq<Event>, needUpdate: bool)
    returns (r': Result, trace': seq<Event>, needUpdate': bool, state': S)
    requires i < |images| && outs == Outlooks(lives, images) && fates == Fates(outs, images, s, |images|)
    requires state == StateAt(outs, images, s, i) && LoopInv(fates, outs, images, s, i, r, trace, needUpdate)
    ensures LoopInv(fates, outs, images, s, i + 1, r', trace', needUpdate') && state' == StateAt(outs, images, s, i + 1)
  {
    var c := images[i];
    OutlookAt(lives, images, i);
    FatesAt(outs, images, s, |images|, i);
    trace', needUpdate', state' := trace, needUpdate, state;
    var live, newest := LiveOf(lives, c), LatestTag(c);
    if live.None? {
      r' := r.(skipped := r.skipped + 1);
      Counted(fates, i, r, r');
    } else if newest.NewestError? {
      r' := r.(considered := r.considered + 1, errors := r.errors + 1);
      Counted(fates, i, r, r');
    } else if newest.NoSuitableTag? {
      r' := r.(considered := r.considered + 1, skipped := r.skipped + 1);
      Counted(fates, i, r, r');
    } else if NeedsUpdate(TagOf(live.value), live.value, c, newest.tag) {
      var newImage := WithTag(c.image, newest.tag);
      r', trace', needUpdate', state' := Outdated(fates, outs, images, s, i, state, newImage, TagOf(live.value),
                                                  newest.tag, r, trace, needUpdate);
    } else {
      var kept := WithTag(c.image, KeptTag(c, TagOf(live.value)));
      r', trace', state' := Keep(fates, outs, images, s, i, state, kept, r, trace, needUpdate);
    }
  }

  /** A run ended with a commit that failed. */
  predicate CommitFailed(trace: seq<Event>, commitSucceeds: bool) {
    trace != [] && trace[|trace| - 1].Committed? && !commitSucceeds
  }

  /** What a run reports: every image counted once, and the changes unless the commit failed. */
  predicate Reported(fates: seq<Fate>, r: Result, failed: bool) {
    var n := |fates|;
    && r.considered + Count(fates, {NotLive}, n) == n
    && r.skipped == Count(fates, SKIPPED, n) && |r.changes| == Count(fates, {Updated}, n)
    && r.errors == Count(fates, ERRORS, n) + (if failed then 1 else 0)
    && r.skipped + r.errors + |r.changes| + Count(fates, SILENT, n) == n + (if failed then 1 else 0)
    && r.updated == if failed then 0 else |r.changes|
  }

  /** All changes are committed together, at the end, unless it is a dry run. */
  predicate CommittedLast(trace: seq<Event>, changes: seq<ChangeEntry>, dryRun: bool) {
    && (forall k :: 0 <= k < |trace| && trace[k].Committed? ==>
          k == |trace| - 1 && !dryRun && trace[k].changes == changes)
    && (!dryRun && changes != [] ==> trace != [] && trace[|trace| - 1].Committed?)
  }

  /**
   One run over an application in state `s`. Every configured image is counted as considered or is not
   live, and as skipped, as an error, as updated or not at all; every update was verified first where
   verification is enabled; the changes are exactly the updates that succeeded, in order, and all of them
   are committed together; and their number is reported unless the commit failed.
   */
  method UpdateApplication<S>(lives: seq<Image>, images: seq<ImageConfig<S>>, s: S, dryRun: bool, commitSucceeds: bool)
    returns (r: Result, trace: seq<Event>, s': S)
    ensures var outs := Outlooks(lives, images);
            && s' == StateAt(outs, images, s, |images|)
            && Reported(Fates(outs, images, s, |images|), r, CommitFailed(trace, commitSucceeds))
            && VerifiedFirst(images, trace) && AllSetRightly(outs, images, s, trace)
            && ChangesWereSet(outs, trace, r.changes)
            && CommittedLast(trace, r.changes, dryRun)
  {
    ghost var outs := Outlooks(lives, images);
    ghost var fates := Fates(outs, images, s, |images|);
    var needUpdate;
    r, trace, needUpdate, s' := RunLoop(lives, fates, outs, images, s);
    r, trace := Commit(fates, outs, images, s, r, trace, needUpdate && !dryRun, commitSucceeds);
  }

  method RunLoop<S>(lives: seq<Image>, ghost fates: seq<Fate>, ghost outs: seq<Outlook>, images: seq<ImageConfig<S>>,
                    s: S)
    returns (r: Result, trace: seq<Event>, needUpdate: bool, s': S)
    requires outs == Outlooks(lives, images) && fates == Fates(outs, images, s, |images|)
    ensures LoopInv(fates, outs, images, s, |images|, r, trace, needUpdate) && s' == StateAt(outs, images, s, |images|)
  {
    r, trace, needUpdate, s' := Result(0, 0, 0, 0, []), [], false, s;
    for i := 0 to |images|
      invariant LoopInv(fates, outs, images, s, i, r, trace, needUpdate) && s' == StateAt(outs, images, s, i)
    {
      r, trace, needUpdate, s' := Consider(lives, fates, outs, images, s, i, s', r, trace, needUpdate);
    }
  }

  /** The end of a run: the changes are committed if there is anything to commit. */
  method Commit<S>(ghost fates: seq<Fate>, ghost outs: seq<Outlook>, images: seq<ImageConfig<S>>, ghost s: S, r: Result,
                   trace: seq<Event>, needed: bool, succeeds: bool)
    returns (r': Result, trace': seq<Event>)
    requires |outs| == |images| == |fates|
    requires Tallied(fates, |fates|, r) && Traced(outs, images, s, r.changes, trace)
    ensures r'.changes == r.changes && Reported(fates, r', CommitFailed(trace', succeeds))
    ensures VerifiedFirst(images, trace') && AllSetRightly(outs, images, s, trace')
    ensures ChangesWereSet(outs, trace', r.changes)
    ensures trace' == if needed then trace + [Committed(r.changes)] else trace
    ensures forall k :: 0 <= k < |trace| ==> !trace[k].Committed?
  {
    r', trace' := r, trace;
    FatesPartition(fates, |fates|);
    if needed {
      CommitKeeps(outs, images, s, trace, r.changes);
      trace' := trace + [Committed(r.changes)];
      if !succeeds {
        r' := r.(errors := r.errors + 1, updated := 0);
      }
    }
  }

  lemma CommitKeeps<S>(outs: seq<Outlook>, images: seq<ImageConfig<S>>, s: S, trace: seq<Event>,
                       changes: seq<ChangeEntry>)
    requires |outs| == |images| && Traced(outs, images, s, changes, trace)
    ensures var trace' := trace + [Committed(changes)];
            && VerifiedFirst(images, trace') && AllSetRightly(outs, images, s, trace')
            && ChangesWereSet(outs, trace', changes)
  {
    VerifiedMore(images, trace, Committed(changes));
    ChangesStay(outs, trace, changes, Committed(changes));
  }
}

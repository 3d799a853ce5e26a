/**
 Matching configured images to live ones (pkg/argocd/argocd.go).

 Configured images and live images are objects, and the match hands live objects over to configured
 images: the first alias of a live image takes the object itself and marks it by setting its alias,
 later ones take copies. The contract says that no two configured images end up with one object.
 */
module Aliases {
  import opened Options
  import opened Repositories
  import opened Sequences

  /** What identifies a container image; its tag is only carried along. An override for Kustomize is an image itself. */
  datatype Reference = Reference(repository: Repository, tag: Option<string>, kustomize: Option<Reference>)

  /** A container image as a value. */
  datatype Listed = Listed(ref: Reference, alias: string)

  class ContainerImage {
    const ref: Reference
    var alias: string

    constructor (ref: Reference, alias: string)
      ensures this.ref == ref && this.alias == alias
    {
      this.ref, this.alias := ref, alias;
    }
  }

  class ConfiguredImage {
    var containerImage: ContainerImage
    const forceUpdate: bool

    constructor (containerImage: ContainerImage, forceUpdate: bool)
      ensures this.containerImage == containerImage && this.forceUpdate == forceUpdate
    {
      this.containerImage, this.forceUpdate := containerImage, forceUpdate;
    }
  }

  // ---------------------------------------------------------------------------------------------
  // Live images
  // ---------------------------------------------------------------------------------------------

  function Ref(img: ContainerImage): Reference {
    img.ref
  }

  function ListedRef(img: Listed): Reference {
    img.ref
  }

  function RepositoryOf(ref: Reference): Repository {
    ref.repository
  }

  /** The repositories an image is looked for by: those of its Kustomize override, then its own. */
  function Wanted(img: Reference): seq<Repository>
    decreases img
  {
    (if img.kustomize.Some? then Wanted(img.kustomize.value) else []) + [img.repository]
  }

  /** The index of the live image of a configured one, or the number of live images. */
  function LiveIndex(list: seq<Reference>, img: Reference): (k: nat)
    ensures k <= |list|
  {
    FindLive(Map(list, RepositoryOf), Wanted(img))
  }

  /** A Kustomize override is looked for first, and only if it is not live the image's own repository. */
  lemma OverrideFirst(list: seq<Reference>, img: Reference)
    ensures var k := LiveIndex(list, img);
            if img.kustomize.Some? && LiveIndex(list, img.kustomize.value) < |list| then
              k == LiveIndex(list, img.kustomize.value)
            else if exists x :: x in list && x.repository == img.repository then
              && k < |list| && list[k].repository == img.repository
              && forall i :: 0 <= i < k ==> list[i].repository != img.repository
            else k == |list|
  {
    var repositories := Map(list, RepositoryOf);
    FindLiveOne(repositories, img.repository);
    if img.kustomize.Some? {
      FindLiveOfConcat(repositories, Wanted(img.kustomize.value), [img.repository]);
    }
    if exists x :: x in list && x.repository == img.repository {
      var x :| x in list && x.repository == img.repository;
      var i :| 0 <= i < |list| && list[i] == x;
      assert repositories[i] == img.repository;
    }
    assert forall i :: 0 <= i < |list| ==> repositories[i] == list[i].repository;
  }

  /** The live images with one more, without its tag, if it is forced and not among them. */
  function WithForced(lives: seq<Reference>, img: Reference, forced: bool): seq<Reference> {
    if forced && LiveIndex(lives, img) == |lives| then lives + [img.(tag := None, kustomize := None)] else lives
  }

  /** The live images: those of the status, and those of the first `n` that are forced. */
  function LiveImages(status: seq<Reference>, configured: seq<Reference>, forced: seq<bool>, n: nat): seq<Reference>
    requires n <= |configured| == |forced|
  {
    if n == 0 then status
    else WithForced(LiveImages(status, configured, forced, n - 1), configured[n - 1], forced[n - 1])
  }

  /** A forced image that is not live is listed last, with its repository alone. */
  lemma ForcedIsListedBare(lives: seq<Reference>, img: Reference)
    requires LiveIndex(lives, img) == |lives|
    ensures WithForced(lives, img, true) == lives + [Reference(img.repository, None, None)]
    ensures WithForced(lives, img, false) == lives
  {
  }

  /** An image that is found among some is found among more. */
  lemma FoundAmongMore(list: seq<Reference>, more: seq<Reference>, img: Reference)
    requires LiveIndex(list, img) < |list|
    ensures LiveIndex(list + more, img) < |list + more|
  {
    var k := LiveIndex(list, img);
    assert Map(list + more, RepositoryOf)[k] == Map(list, RepositoryOf)[k];
  }

  /** Every image whose update is forced is live. */
  lemma {:induction false} ForcedIsLive(status: seq<Reference>, configured: seq<Reference>, forced: seq<bool>, n: nat,
                                        i: nat)
    requires i < n <= |configured| == |forced| && forced[i]
    ensures var lives := LiveImages(status, configured, forced, n);
            LiveIndex(lives, configured[i]) < |lives|
    decreases n
  {
    var before, after := LiveImages(status, configured, forced, n - 1), LiveImages(status, configured, forced, n);
    var added := if |after| > |before| then [configured[n - 1].(tag := None, kustomize := None)] else [];
    assert after == before + added;
    if i < n - 1 {
      ForcedIsLive(status, configured, forced, n - 1, i);
      FoundAmongMore(before, added, configured[i]);
    } else if added != [] {
      assert Map(after, RepositoryOf)[|before|] == configured[i].repository;
      assert configured[i].repository in Wanted(configured[i]);
    }
  }

  ghost predicate Distinct(list: seq<ContainerImage>) {
    forall i, j :: 0 <= i < j < |list| ==> list[i] != list[j]
  }

  method FirstOfRepository(list: seq<ContainerImage>, r: Repository) returns (k: nat)
    ensures k == IndexFrom(Map(Map(list, Ref), RepositoryOf), r, 0)
  {
    ghost var repositories := Map(Map(list, Ref), RepositoryOf);
    for i := 0 to |list|
      invariant IndexFrom(repositories, r, 0) == IndexFrom(repositories, r, i)
    {
      if list[i].ref.repository == r {
        return i;
      }
    }
    return |list|;
  }

  /** ContainsImage without a check of the version: the index of the image found. */
  method ContainsImage(list: seq<ContainerImage>, img: Reference) returns (k: nat)
    ensures k == LiveIndex(Map(list, Ref), img)
    decreases img
  {
    ghost var repositories := Map(Map(list, Ref), RepositoryOf);
    FindLiveOne(repositories, img.repository);
    if img.kustomize.Some? {
      FindLiveOfConcat(repositories, Wanted(img.kustomize.value), [img.repository]);
      k := ContainsImage(list, img.kustomize.value);
      if k < |list| {
        return k;
      }
    }
    k := FirstOfRepository(list, img.repository);
  }

  /** The images the configured ones hold, and which of them are forced. */
  ghost function Held(configured: seq<ConfiguredImage>): (r: seq<ContainerImage>)
    reads configured
    ensures |r| == |configured| && forall i :: 0 <= i < |r| ==> r[i] == configured[i].containerImage
  {
    seq(|configured|, i requires 0 <= i < |configured| reads configured => configured[i].containerImage)
  }

  ghost function Forced(configured: seq<ConfiguredImage>): (r: seq<bool>)
    ensures |r| == |configured| && forall i :: 0 <= i < |r| ==> r[i] == configured[i].forceUpdate
  {
    seq(|configured|, i requires 0 <= i < |configured| => configured[i].forceUpdate)
  }

  /** The images of the status, as new objects. */
  method ImagesOfStatus(status: seq<Listed>) returns (images: seq<ContainerImage>)
    ensures fresh(images) && Distinct(images) && |images| == |status|
    ensures forall i :: 0 <= i < |status| ==> images[i].ref == status[i].ref && images[i].alias == status[i].alias
  {
    images := [];
    for i := 0 to |status|
      invariant fresh(images) && Distinct(images) && |images| == i
      invariant forall j :: 0 <= j < i ==> images[j].ref == status[j].ref && images[j].alias == status[j].alias
    {
      var img := new ContainerImage(status[i].ref, status[i].alias);
      images := images + [img];
    }
  }

  /** Adds an image without its tag, unless there is one of its repository. */
  method AddForced(images: seq<ContainerImage>, img: ConfiguredImage) returns (r: seq<ContainerImage>)
    requires Distinct(images)
    ensures Distinct(r) && images <= r && |r| <= |images| + 1 && (|r| > |images| ==> fresh(r[|images|]))
    ensures Map(r, Ref) == WithForced(Map(images, Ref), img.containerImage.ref, img.forceUpdate)
    ensures |r| > |images| ==> r[|images|].alias == img.containerImage.alias
  {
    r := images;
    if img.forceUpdate {
      var ref := img.containerImage.ref.(tag := None, kustomize := None);
      var imgCopy := new ContainerImage(ref, img.containerImage.alias);
      var k := ContainsImage(images, img.containerImage.ref);
      if k == |images| {
        r := images + [imgCopy];
        assert Map(r, Ref) == Map(images, Ref) + [ref];
      }
    }
  }

  method GetImagesFromApplication(status: seq<Listed>, configured: seq<ConfiguredImage>)
    returns (images: seq<ContainerImage>)
    ensures fresh(images) && Distinct(images)
    ensures Map(images, Ref) ==
            LiveImages(Map(status, ListedRef), Map(Held(configured), Ref), Forced(configured), |configured|)
  {
    images := ImagesOfStatus(status);
    ghost var listed, refs, forced := Map(status, ListedRef), Map(Held(configured), Ref), Forced(configured);
    assert Map(images, Ref) == listed;
    for i := 0 to |configured|
      invariant fresh(images) && Distinct(images) && Map(images, Ref) == LiveImages(listed, refs, forced, i)
    {
      assert refs[i] == configured[i].containerImage.ref && forced[i] == configured[i].forceUpdate;
      images := AddForced(images, configured[i]);
    }
  }

  // ---------------------------------------------------------------------------------------------
  // Matching
  // ---------------------------------------------------------------------------------------------

  /** The alias an image is listed under. */
  function WantedAlias(img: Listed): string {
    if img.alias == "" then img.ref.repository.name else img.alias
  }

  /** What a configured image holds once it is matched: its live image, under its own alias. */
  function Target(lives: seq<Reference>, img: Listed): Option<Listed> {
    var k := LiveIndex(lives, img.ref);
    if k < |lives| then Some(Listed(lives[k], WantedAlias(img))) else None
  }

  /** A live image is held under the configured alias, or under the name of its repository if there is none. */
  lemma TargetIs(lives: seq<Reference>, ref: Reference, alias: string)
    ensures var k, target := LiveIndex(lives, ref), Target(lives, Listed(ref, alias));
            && (target == None <==> k == |lives|)
            && (k < |lives| && alias != "" ==> target == Some(Listed(lives[k], alias)))
            && (k < |lives| && alias == "" ==> target == Some(Listed(lives[k], ref.repository.name)))
  {
  }

  function Targets(lives: seq<Reference>, configured: seq<Listed>): (r: seq<Option<Listed>>)
    ensures |r| == |configured| && forall i :: 0 <= i < |r| ==> r[i] == Target(lives, configured[i])
  {
    seq(|configured|, i requires 0 <= i < |configured| => Target(lives, configured[i]))
  }

  ghost function Value(img: ContainerImage): Listed
    reads img
  {
    Listed(img.ref, img.alias)
  }

  ghost function Values(list: seq<ContainerImage>): (r: seq<Listed>)
    reads list
    ensures |r| == |list| && forall i :: 0 <= i < |r| ==> r[i] == Value(list[i])
  {
    seq(|list|, i requires 0 <= i < |list| reads list => Value(list[i]))
  }

  /** Those of the first `n` images that have a target, in order. */
  ghost function OnlyLive(configured: seq<ConfiguredImage>, targets: seq<Option<Listed>>, n: nat): seq<ConfiguredImage>
    requires n <= |configured| == |targets|
  {
    if n == 0 then []
    else OnlyLive(configured, targets, n - 1) + if targets[n - 1].Some? then [configured[n - 1]] else []
  }

  /** One round of the loop: the live image is handed over, or a copy of it if it has an alias already. */
  method Match(aliased: ConfiguredImage, lives: seq<ContainerImage>) returns (live: bool, ghost k: nat)
    requires aliased.containerImage !in lives
    modifies aliased, lives
    ensures live <==> Target(Map(lives, Ref), old(Value(aliased.containerImage))).Some?
    ensures !live ==> aliased.containerImage == old(aliased.containerImage)
    ensures live ==> Some(Value(aliased.containerImage)) == Target(Map(lives, Ref), old(Value(aliased.containerImage)))
    ensures live ==>
              || fresh(aliased.containerImage)
              || (k < |lives| && aliased.containerImage == lives[k] && old(lives[k].alias) == "")
    ensures forall x :: x in lives && !(live && x == aliased.containerImage) ==> x.alias == old(x.alias)
  {
    var found := ContainsImage(lives, aliased.containerImage.ref);
    live, k := found < |lives|, found;
    if live {
      var sourceImage, configured := lives[found], aliased.containerImage;
      var wanted := if configured.alias == "" then configured.ref.repository.name else configured.alias;
      if sourceImage.alias != "" {
        var imageCopy := new ContainerImage(sourceImage.ref, wanted);
        aliased.containerImage := imageCopy;
      } else {
        sourceImage.alias := wanted;
        aliased.containerImage := sourceImage;
      }
    }
  }

  /**
   With the first `n` images matched: those with a target hold it, in an object that no image held
   before and that no earlier one holds now; the others, and all from `n` on, hold what they held.
   An image with neither alias nor name does not mark its object, so that a later one may take it too.
   */
  ghost predicate Settled(now: seq<ContainerImage>, values: seq<Listed>, held: seq<ContainerImage>,
                          targets: seq<Option<Listed>>, n: nat, i: nat)
    requires i < |now| == |values| == |held| == |targets|
  {
    if i < n && targets[i].Some? then
      && now[i] !in held
      && values[i].ref == targets[i].value.ref
      && (targets[i].value.alias != "" ==> values[i] == targets[i].value)
      && forall j :: 0 <= j < i && targets[j].Some? && targets[j].value.alias != "" ==> now[j] != now[i]
    else now[i] == held[i]
  }

  ghost predicate AllSettled(now: seq<ContainerImage>, values: seq<Listed>, held: seq<ContainerImage>,
                             targets: seq<Option<Listed>>, n: nat) {
    && |now| == |values| == |held| == |targets|
    && forall i :: 0 <= i < |now| ==> Settled(now, values, held, targets, n, i)
  }

  /** Once image `i` has its target, in an object of its own, the images matched before are settled still. */
  lemma SettledNext(was: seq<ContainerImage>, wasValues: seq<Listed>, now: seq<ContainerImage>, values: seq<Listed>,
                    held: seq<ContainerImage>, targets: seq<Option<Listed>>, i: nat)
    requires AllSettled(was, wasValues, held, targets, i) && i < |was| == |now| == |values| && was[i := now[i]] == now
    requires forall j :: 0 <= j < i && targets[j].Some? ==> values[j].ref == wasValues[j].ref
    requires forall j :: 0 <= j < i && targets[j].Some? && targets[j].value.alias != "" ==>
                           now[j] != now[i] && values[j] == wasValues[j]
    requires if targets[i].Some? then now[i] !in held && values[i] == targets[i].value else now[i] == held[i]
    ensures AllSettled(now, values, held, targets, i + 1)
  {
    var n := i + 1;
    forall j | 0 <= j < |now| ensures Settled(now, values, held, targets, n, j) {
      assert Settled(was, wasValues, held, targets, i, j);
    }
  }

  ghost predicate DistinctImages(configured: seq<ConfiguredImage>) {
    forall i, j :: 0 <= i < j < |configured| ==> configured[i] != configured[j]
  }

  /** The targets are those of what was held, which is apart from the live images. */
  ghost predicate Matchable(lives: seq<ContainerImage>, held: seq<ContainerImage>, values: seq<Listed>,
                            targets: seq<Option<Listed>>) {
    && |held| == |values| && targets == Targets(Map(lives, Ref), values)
    && (forall x :: x in lives ==> x !in held)
  }

  /** The first `n` images are matched, and what was held is as it was. */
  ghost predicate Matched(configured: seq<ConfiguredImage>, held: seq<ContainerImage>, values: seq<Listed>,
                          targets: seq<Option<Listed>>, n: nat)
    reads *
  {
    AllSettled(Held(configured), Values(Held(configured)), held, targets, n) && values == Values(held)
  }

  method MatchNext(configured: seq<ConfiguredImage>, i: nat, lives: seq<ContainerImage>,
                   ghost held: seq<ContainerImage>,
                   ghost values: seq<Listed>, ghost targets: seq<Option<Listed>>)
    returns (live: bool)
    requires i < |configured| && DistinctImages(configured) && Matchable(lives, held, values, targets)
    requires Matched(configured, held, values, targets, i)
    modifies configured[i], lives
    ensures live <==> targets[i].Some?
    ensures Matched(configured, held, values, targets, i + 1)
  {
    ghost var was, wasValues := Held(configured), Values(Held(configured));
    assert Settled(was, wasValues, held, targets, i, i);
    assert was[i] == held[i] && held[i] in held && held[i] !in lives;
    assert targets[i] == Target(Map(lives, Ref), Value(held[i]));
    ghost var k;
    live, k := Match(configured[i], lives);
    ghost var now, nowValues := Held(configured), Values(Held(configured));
    assert was[i := now[i]] == now;
    forall j | 0 <= j < i && targets[j].Some? && targets[j].value.alias != ""
      ensures now[j] != now[i] && nowValues[j] == wasValues[j]
    {
      assert Settled(was, wasValues, held, targets, i, j);
      assert now[j] == was[j] && now[j] !in held;
    }
    SettledNext(was, wasValues, now, nowValues, held, targets, i);
    forall j | 0 <= j < |held| ensures Value(held[j]) == values[j] {
      assert held[j] in held;
    }
  }

  method MatchAll(configured: seq<ConfiguredImage>, lives: seq<ContainerImage>, ghost held: seq<ContainerImage>,
                  ghost values: seq<Listed>, ghost targets: seq<Option<Listed>>)
    returns (result: seq<ConfiguredImage>)
    requires DistinctImages(configured) && Matchable(lives, held, values, targets) && |targets| == |configured|
    requires Matched(configured, held, values, targets, 0)
    modifies configured, lives
    ensures Matched(configured, held, values, targets, |configured|)
    ensures result == OnlyLive(configured, targets, |configured|)
  {
    result := [];
    for i := 0 to |configured|
      invariant Matched(configured, held, values, targets, i)
      invariant result == OnlyLive(configured, targets, i)
    {
      var live := MatchNext(configured, i, lives, held, values, targets);
      result := result + if live then [configured[i]] else [];
    }
  }

  /**
   The result holds the live configured images in order. Each that has an alias or a name has an object of its
   own that none had before, with the identity of its live image and its own alias; those that are not live keep
   theirs.
   */
  method GetImagesAndAliasesFromApplication(status: seq<Listed>, configured: seq<ConfiguredImage>)
    returns (result: seq<ConfiguredImage>)
    requires DistinctImages(configured)
    modifies configured
    ensures var held, values := old(Held(configured)), old(Values(Held(configured)));
            var lives := LiveImages(Map(status, ListedRef), Map(held, Ref), Forced(configured), |configured|);
            && result == OnlyLive(configured, Targets(lives, values), |configured|)
            && AllSettled(Held(configured), Values(Held(configured)), held, Targets(lives, values), |configured|)
  {
    ghost var held := Held(configured);
    var images := GetImagesFromApplication(status, configured);
    result := MatchAll(configured, images, held, Values(held), Targets(Map(images, Ref), Values(held)));
  }
}

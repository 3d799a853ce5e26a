/**
 The image loop on a Helm application, run more than once (pkg/argocd/update.go, pkg/argocd/argocd.go).

 The loop writes its images to parameters of the application and looks there before it writes again. What a second
 run with the same answers of the registry finds depends on who has written a parameter last.
 */
module HelmRuns {
  import opened Options
  import opened ImageRef
  import opened HelmParams
  import opened UpdateLoop
  import opened HelmTargets

  // ---------------------------------------------------------------------------------------------
  // Two runs
  // ---------------------------------------------------------------------------------------------

  /** The images are on a Helm application, and each has parameters of its own. */
  ghost predicate Independent(images: seq<ImageConfig<AppSpec>>, targets: seq<Target>, wbc: Option<WriteBackConfig>) {
    && OnHelm(images, targets, wbc) && Separate(targets)
    && forall i :: 0 <= i < |targets| ==> IsClear(targets[i])
  }

  /** The outlooks are those of images with a name. */
  predicate AllSound(outs: seq<Outlook>) {
    forall i :: 0 <= i < |outs| ==> Sound(outs[i]) && (outs[i].Updating? ==> outs[i].image.name != "")
  }

  lemma {:induction false} RunSame(outs: seq<Outlook>, images: seq<ImageConfig<AppSpec>>, targets: seq<Target>,
                                   wbc: Option<WriteBackConfig>,
                                   s: AppSpec, i: nat, s': AppSpec)
    requires OnHelm(images, targets, wbc) && i <= |images| == |outs| && s' == StateAt(outs, images, s, i)
    ensures (IsHelmApplication(s', wbc) <==> IsHelmApplication(s, wbc)) && (IsLost(s', wbc) <==> IsLost(s, wbc))
  {
    if i > 0 {
      var before: AppSpec := StateAt(outs, images, s, i - 1);
      assert s' == After(outs[i - 1], images[i - 1], before);
      RunSame(outs, images, targets, wbc, s, i - 1, before);
      AfterSame(outs[i - 1], images[i - 1], before, wbc, targets[i - 1]);
    }
  }

  /** What an image has written, and what is read for it, stays to the end of the run. */
  lemma {:induction false} StaysToTheEnd(outs: seq<Outlook>, images: seq<ImageConfig<AppSpec>>, targets: seq<Target>,
                                         wbc: Option<WriteBackConfig>,
                                         s: AppSpec, j: nat, i: nat, img: Image, after: AppSpec, later: AppSpec)
    requires OnHelm(images, targets, wbc) && Separate(targets) && j < i <= |images| == |outs|
    requires after == StateAt(outs, images, s, j + 1) && later == StateAt(outs, images, s, i)
    ensures GetHelmImage(later, wbc, targets[j]) == GetHelmImage(after, wbc, targets[j])
    ensures Holds(after, wbc, img, targets[j]) ==> Holds(later, wbc, img, targets[j])
    decreases i
  {
    if i > j + 1 {
      var before: AppSpec := StateAt(outs, images, s, i - 1);
      StaysToTheEnd(outs, images, targets, wbc, s, j, i - 1, img, after, before);
      AfterOther(outs[i - 1], images[i - 1], before, later, wbc, targets[i - 1], img, targets[j]);
    }
  }

  /** What an image has written in a run is held at its end. */
  lemma HeldAtTheEnd(outs: seq<Outlook>, images: seq<ImageConfig<AppSpec>>, targets: seq<Target>,
                     wbc: Option<WriteBackConfig>, s: AppSpec, j: nat, end: AppSpec)
    requires Independent(images, targets, wbc) && j < |images| == |outs| && end == StateAt(outs, images, s, |images|)
    ensures !outs[j].Nothing? && FateAt(outs, images, s, j) in {Updated, Kept} ==>
              Holds(end, wbc, outs[j].image, targets[j])
  {
    if !outs[j].Nothing? && FateAt(outs, images, s, j) in {Updated, Kept} {
      var before: AppSpec, after: AppSpec := StateAt(outs, images, s, j), StateAt(outs, images, s, j + 1);
      AfterImage(outs[j], images[j], before, wbc, targets[j]);
      HeldAfterWrite(before, wbc, outs[j].image, targets[j]);
      StaysToTheEnd(outs, images, targets, wbc, s, j, |images|, outs[j].image, after, end);
    }
  }

  /** In the application as a run has left it, an image meets its second fate and changes nothing. */
  lemma ImageAgain(outs: seq<Outlook>, images: seq<ImageConfig<AppSpec>>, targets: seq<Target>,
                   wbc: Option<WriteBackConfig>,
                   s: AppSpec, j: nat, end: AppSpec)
    requires Independent(images, targets, wbc) && AllSound(outs) && j < |images| == |outs|
    requires end == StateAt(outs, images, s, |images|)
    ensures FateOf(outs[j], images[j], end) ==
            SecondFate(FateAt(outs, images, s, j), CanReadBack(outs[j], targets[j], IsLost(s, wbc)))
    ensures After(outs[j], images[j], end) == end
  {
    var o, c, target := outs[j], images[j], targets[j];
    var before: AppSpec, after: AppSpec := StateAt(outs, images, s, j), StateAt(outs, images, s, j + 1);
    RunSame(outs, images, targets, wbc, s, j, before);
    RunSame(outs, images, targets, wbc, s, |images|, end);
    StaysToTheEnd(outs, images, targets, wbc, s, j, |images|, if o.Nothing? then c.image else o.image, after, end);
    FateLater(o, c, before, end, wbc, target);
    HeldAtTheEnd(outs, images, targets, wbc, s, j, end);
    LeavesAsItIs(o, c, end, wbc, target);
  }

  /** A run of images that each leave the application as it is. */
  lemma {:induction false} FixedPoint(outs: seq<Outlook>, images: seq<ImageConfig<AppSpec>>, s: AppSpec, k: nat)
    requires k <= |images| == |outs| && forall j :: 0 <= j < k ==> After(outs[j], images[j], s) == s
    ensures StateAt(outs, images, s, k) == s
  {
    if k > 0 {
      FixedPoint(outs, images, s, k - 1);
    }
  }

  /** A second run leaves the application as it is. */
  lemma SecondState(outs: seq<Outlook>, images: seq<ImageConfig<AppSpec>>, targets: seq<Target>,
                    wbc: Option<WriteBackConfig>,
                    s: AppSpec, k: nat, end: AppSpec)
    requires Independent(images, targets, wbc) && AllSound(outs) && k <= |images| == |outs|
    requires end == StateAt(outs, images, s, |images|)
    ensures StateAt(outs, images, end, k) == end
  {
    forall j | 0 <= j < k ensures After(outs[j], images[j], end) == end {
      ImageAgain(outs, images, targets, wbc, s, j, end);
    }
    FixedPoint(outs, images, end, k);
  }

  /** And meets only second fates. */
  lemma SecondRun(outs: seq<Outlook>, images: seq<ImageConfig<AppSpec>>, targets: seq<Target>,
                  wbc: Option<WriteBackConfig>,
                  s: AppSpec, k: nat, end: AppSpec)
    requires Independent(images, targets, wbc) && AllSound(outs) && k < |images| == |outs|
    requires end == StateAt(outs, images, s, |images|)
    ensures FateAt(outs, images, end, k) ==
            SecondFate(FateAt(outs, images, s, k), CanReadBack(outs[k], targets[k], IsLost(s, wbc)))
  {
    SecondState(outs, images, targets, wbc, s, k, end);
    ImageAgain(outs, images, targets, wbc, s, k, end);
  }

  /** Every image the first run updates can be read back. */
  predicate AllReadBack(outs: seq<Outlook>, fates: seq<Fate>, targets: seq<Target>, lost: bool)
    requires |outs| == |fates| == |targets|
  {
    forall i :: 0 <= i < |fates| && fates[i].Updated? ==> CanReadBack(outs[i], targets[i], lost)
  }

  /** The second run updates nothing exactly if all that was updated can be read back. */
  lemma NothingToUpdate(outs: seq<Outlook>, images: seq<ImageConfig<AppSpec>>, targets: seq<Target>,
                        wbc: Option<WriteBackConfig>,
                        s: AppSpec, end: AppSpec, first: seq<Fate>, second: seq<Fate>)
    requires Independent(images, targets, wbc) && AllSound(outs) && |outs| == |images|
    requires end == StateAt(outs, images, s, |images|)
    requires first == Fates(outs, images, s, |images|) && second == Fates(outs, images, end, |images|)
    ensures Count(second, {Updated}, |images|) == 0 <==> AllReadBack(outs, first, targets, IsLost(s, wbc))
  {
    forall k | 0 <= k < |images|
      ensures second[k] == SecondFate(first[k], CanReadBack(outs[k], targets[k], IsLost(s, wbc)))
    {
      SecondRun(outs, images, targets, wbc, s, k, end);
      FatesAt(outs, images, s, |images|, k);
      FatesAt(outs, images, end, |images|, k);
    }
    CountNone(second, {Updated}, |images|);
  }

  /** A run that updates nothing sets no image to a new tag. */
  lemma NoUpdateInTrace(outs: seq<Outlook>, images: seq<ImageConfig<AppSpec>>, targets: seq<Target>,
                        wbc: Option<WriteBackConfig>,
                        s: AppSpec, fates: seq<Fate>, trace: seq<Event>)
    requires OnHelm(images, targets, wbc) && |outs| == |images| && AllSetRightly(outs, images, s, trace)
    requires fates == Fates(outs, images, s, |images|) && Count(fates, {Updated}, |images|) == 0
    ensures forall k :: 0 <= k < |trace| ==> !(trace[k].SetImage? && trace[k].update)
  {
    CountNone(fates, {Updated}, |images|);
    forall k | 0 <= k < |trace| && trace[k].SetImage? && trace[k].update ensures false {
      var i := trace[k].index;
      assert SetRightly(outs, images, s, trace[k]);
      FatesAt(outs, images, s, |images|, i);
      FateIsFrom(outs[i], images[i], StateAt(outs, images, s, i), wbc, targets[i]);
    }
  }

  // ---------------------------------------------------------------------------------------------
  // A run after the rollout
  // ---------------------------------------------------------------------------------------------

  /** The outlook of an image is as it was, or the image was updated and now runs the newest tag. */
  predicate HasSettled(o: Outlook, updated: bool, lives: seq<Image>, c: ImageConfig<AppSpec>) {
    || OutlookOf(lives, c) == o
    || (&& updated && o.Updating? && o.image == WithTag(c.image, o.newTag)
        && LatestTag(c) == NewestTag(o.newTag) && o.newTag.name != ""
        && LiveOf(lives, c).Some? && TagOf(LiveOf(lives, c).value) == o.newTag
        && SameRepository(c.image, LiveOf(lives, c).value))
  }

  lemma SettledAgain(outs: seq<Outlook>, images: seq<ImageConfig<AppSpec>>, targets: seq<Target>,
                     wbc: Option<WriteBackConfig>, s: AppSpec, j: nat, end: AppSpec, lives: seq<Image>)
    requires Independent(images, targets, wbc) && AllSound(outs) && j < |images| == |outs|
    requires end == StateAt(outs, images, s, |images|)
    requires HasSettled(outs[j], FateAt(outs, images, s, j).Updated?, lives, images[j])
    ensures After(OutlookOf(lives, images[j]), images[j], end) == end
  {
    ImageAgain(outs, images, targets, wbc, s, j, end);
    if OutlookOf(lives, images[j]) != outs[j] {
      RolledOut(lives, images[j], outs[j].newTag);
      HeldAtTheEnd(outs, images, targets, wbc, s, j, end);
      LeavesAsItIs(OutlookOf(lives, images[j]), images[j], end, wbc, targets[j]);
    }
  }

  /** Once what a run has updated is rolled out, the next run leaves the application as it is. */
  lemma RolloutChangesNothing(outs: seq<Outlook>, images: seq<ImageConfig<AppSpec>>, targets: seq<Target>,
                              wbc: Option<WriteBackConfig>, s: AppSpec, end: AppSpec, lives: seq<Image>)
    requires Independent(images, targets, wbc) && AllSound(outs) && |images| == |outs|
    requires end == StateAt(outs, images, s, |images|)
    requires forall j :: 0 <= j < |images| ==>
                           HasSettled(outs[j], FateAt(outs, images, s, j).Updated?, lives, images[j])
    ensures StateAt(Outlooks(lives, images), images, end, |images|) == end
  {
    var again := Outlooks(lives, images);
    forall j | 0 <= j < |images| ensures After(again[j], images[j], end) == end {
      OutlookAt(lives, images, j);
      SettledAgain(outs, images, targets, wbc, s, j, end, lives);
    }
    FixedPoint(again, images, end, |images|);
  }
}

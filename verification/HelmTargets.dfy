/**
 One image of the loop on a Helm application (pkg/argocd/update.go, pkg/argocd/argocd.go): the parameters it is
 written to, what is read there before and after, and what another image makes of it.
 */
module HelmTargets {
  import opened Options
  import opened ImageRef
  import opened HelmParams
  import opened UpdateLoop

  type AppSpec = s: Spec | ValidSpec(s) witness Spec(false, [], None, Source(None, false, false), HelmSource, [])

  /** getAppImage and setAppImage of a Helm application. */
  function Reads(wbc: Option<WriteBackConfig>, target: Target): AppSpec -> Option<string> {
    (s: AppSpec) => GetHelmImage(s, wbc, target)
  }

  function Writes(wbc: Option<WriteBackConfig>, target: Target): (AppSpec, Image) -> Option<AppSpec> {
    (s: AppSpec, img: Image) => if IsHelmApplication(s, wbc) then Some(Set(s, wbc, img, target)) else None
  }

  /** An image of the loop that is read from and written to the parameters of its target. */
  ghost predicate IsOnHelm(c: ImageConfig<AppSpec>, wbc: Option<WriteBackConfig>, target: Target) {
    c.get == Reads(wbc, target) && c.put == Writes(wbc, target)
  }

  ghost predicate OnHelm(images: seq<ImageConfig<AppSpec>>, targets: seq<Target>, wbc: Option<WriteBackConfig>) {
    |images| == |targets| && forall i :: 0 <= i < |images| ==> IsOnHelm(images[i], wbc, targets[i])
  }

  // ---------------------------------------------------------------------------------------------
  // Targets that do not interfere
  // ---------------------------------------------------------------------------------------------

  function ParamNames(target: Target): set<string> {
    if target.spec != "" then {target.spec} else {NameParam(target), TagParam(target)}
  }

  /** The image has a parameter for its name and another for its tag, or one for both together. */
  predicate IsClear(target: Target) {
    target.spec != "" || NameParam(target) != TagParam(target)
  }

  predicate Separate(targets: seq<Target>) {
    forall i, j :: 0 <= i < j < |targets| ==> ParamNames(targets[i]) !! ParamNames(targets[j])
  }

  lemma WritesOnlyItsNames(img: Image, target: Target)
    ensures forall p :: p in ImageParams(img, target) ==> p.name in ParamNames(target)
  {
  }

  /** An image written elsewhere does not change what is read here. */
  lemma ReadElsewhere(s: AppSpec, wbc: Option<WriteBackConfig>, img: Image, other: Target, target: Target)
    requires ParamNames(other) !! ParamNames(target)
    ensures GetHelmImage(Set(s, wbc, img, other), wbc, target) == GetHelmImage(s, wbc, target)
  {
    WritesOnlyItsNames(img, other);
    var p := GetApplicationSource(s, wbc);
    SameSourceSelected(s, wbc, Merged(ParamsAt(s, p), ImageParams(img, other)));
    forall name | name in ParamNames(target)
      ensures GetHelmParam(ParamsAt(Set(s, wbc, img, other), p), name) == GetHelmParam(ParamsAt(s, p), name)
    {
      OthersUnchanged(s, wbc, img, other, name);
    }
    ImageInDepends(ParamsAt(Set(s, wbc, img, other), p), ParamsAt(s, p), target);
  }

  lemma ImageInDepends(a: seq<Param>, b: seq<Param>, target: Target)
    requires forall name :: name in ParamNames(target) ==> GetHelmParam(a, name) == GetHelmParam(b, name)
    ensures ImageIn(a, target) == ImageIn(b, target)
  {
    if target.spec != "" {
      assert target.spec in ParamNames(target);
    } else {
      assert NameParam(target) in ParamNames(target) && TagParam(target) in ParamNames(target);
    }
  }

  /** The application already holds what setting the image would write. */
  predicate Holds(s: AppSpec, wbc: Option<WriteBackConfig>, img: Image, target: Target) {
    Set(s, wbc, img, target) == s
  }

  /** Parameters that are merged already stay so when others of other names are merged. */
  lemma MergedStill(src: seq<Param>, merge: seq<Param>, others: seq<Param>)
    requires Merged(src, merge) == src && forall p, q :: p in merge && q in others ==> p.name != q.name
    ensures Merged(Merged(src, others), merge) == Merged(src, others)
  {
    var src' := Merged(src, others);
    assert Missing(src, merge) == [] by {
      assert |Merged(src, merge)| == |src| + |Missing(src, merge)|;
    }
    forall i | 0 <= i < |src'| ensures Replacement(src'[i], merge) == src'[i] {
      ReplacedStill(src, merge, others, i);
    }
    assert Replaced(src', merge) == src';
    assert Missing(src', merge) == [] by {
      assert merge[..|merge|] == merge;
      NamedStill(src, merge, others, |merge|);
    }
  }

  lemma ReplacedStill(src: seq<Param>, merge: seq<Param>, others: seq<Param>, i: nat)
    requires Merged(src, merge) == src
    requires (forall p, q :: p in merge && q in others ==> p.name != q.name) && i < |Merged(src, others)|
    ensures Replacement(Merged(src, others)[i], merge) == Merged(src, others)[i]
  {
    var p := Merged(src, others)[i];
    MergeOverrides(src, others, p.name);
    if i < |src| {
      assert Merged(src, merge)[i] == Replacement(src[i], merge);
      var o := GetHelmParam(others, src[i].name);
      assert p == Replacement(src[i], others);
    } else {
      assert p in others;
    }
  }

  /** No parameter is missing after more have been merged if none was before. */
  lemma {:induction false} NamedStill(src: seq<Param>, merge: seq<Param>, others: seq<Param>, n: nat)
    requires n <= |merge| && Missing(src, merge[..n]) == []
    ensures Missing(Merged(src, others), merge[..n]) == []
  {
    if n > 0 {
      assert merge[..n][..n - 1] == merge[..n - 1];
      NamedStill(src, merge, others, n - 1);
      var name := merge[n - 1].name;
      assert Names(src, name);
      var p :| p in src && p.name == name;
      var i :| 0 <= i < |src| && src[i] == p;
      assert Merged(src, others)[i].name == name && Merged(src, others)[i] in Merged(src, others);
    }
  }

  /** What is written is held. */
  lemma HeldAfterWrite(s: AppSpec, wbc: Option<WriteBackConfig>, img: Image, target: Target)
    requires IsClear(target)
    ensures Holds(Set(s, wbc, img, target), wbc, img, target)
  {
    SetIsIdempotent(s, wbc, img, target);
  }

  /** And stays held when another image is written elsewhere. */
  lemma HeldStill(s: AppSpec, wbc: Option<WriteBackConfig>, img: Image, target: Target, otherImg: Image, other: Target)
    requires Holds(s, wbc, img, target) && ParamNames(other) !! ParamNames(target)
    ensures Holds(Set(s, wbc, otherImg, other), wbc, img, target)
  {
    var p := GetApplicationSource(s, wbc);
    var src, merge, others := ParamsAt(s, p), ImageParams(img, target), ImageParams(otherImg, other);
    SameSourceSelected(s, wbc, Merged(src, others));
    if !(p.Dry? && SourceAt(s, p).helm.None?) {
      SameSourceSelected(s, wbc, Merged(src, merge));
      WritesOnlyItsNames(img, target);
      WritesOnlyItsNames(otherImg, other);
      assert Merged(src, merge) == src;
      MergedStill(src, merge, others);
      GivenTwice(s, p, Merged(src, others));
    }
  }

  /** The written image is lost: its source is a copy of a dry source without a Helm block. */
  predicate IsLost(s: AppSpec, wbc: Option<WriteBackConfig>) {
    var p := GetApplicationSource(s, wbc);
    p.Dry? && SourceAt(s, p).helm.None?
  }

  /** What no write changes. */
  lemma SameApplication(s: AppSpec, wbc: Option<WriteBackConfig>, img: Image, target: Target)
    ensures var s' := Set(s, wbc, img, target);
            (IsHelmApplication(s', wbc) <==> IsHelmApplication(s, wbc)) && (IsLost(s', wbc) <==> IsLost(s, wbc))
  {
    var p := GetApplicationSource(s, wbc);
    SameSourceSelected(s, wbc, Merged(ParamsAt(s, p), ImageParams(img, target)));
  }

  // ---------------------------------------------------------------------------------------------
  // One image in a run
  // ---------------------------------------------------------------------------------------------

  /** What an image has done to the application, if anything: it has set itself. */
  lemma AfterImage(o: Outlook, c: ImageConfig<AppSpec>, s: AppSpec, wbc: Option<WriteBackConfig>, target: Target)
    requires IsOnHelm(c, wbc, target)
    ensures After(o, c, s) ==
            if !o.Nothing? && FateOf(o, c, s) in {Updated, Kept} then Set(s, wbc, o.image, target) else s
  {
  }

  /** What another image has written stays, and so does what is read for it. */
  lemma AfterOther(o: Outlook, c: ImageConfig<AppSpec>, s: AppSpec, s': AppSpec, wbc: Option<WriteBackConfig>,
                   other: Target, img: Image, target: Target)
    requires IsOnHelm(c, wbc, other) && ParamNames(other) !! ParamNames(target) && s' == After(o, c, s)
    ensures GetHelmImage(s', wbc, target) == GetHelmImage(s, wbc, target)
    ensures Holds(s, wbc, img, target) ==> Holds(s', wbc, img, target)
  {
    AfterImage(o, c, s, wbc, other);
    if !o.Nothing? && FateOf(o, c, s) in {Updated, Kept} {
      ReadElsewhere(s, wbc, o.image, other, target);
      if Holds(s, wbc, img, target) {
        HeldStill(s, wbc, img, target, o.image, other);
      }
    }
  }

  lemma AfterSame(o: Outlook, c: ImageConfig<AppSpec>, s: AppSpec, wbc: Option<WriteBackConfig>, target: Target)
    requires IsOnHelm(c, wbc, target)
    ensures IsHelmApplication(After(o, c, s), wbc) <==> IsHelmApplication(s, wbc)
    ensures IsLost(After(o, c, s), wbc) <==> IsLost(s, wbc)
  {
    AfterImage(o, c, s, wbc, target);
    if !o.Nothing? && FateOf(o, c, s) in {Updated, Kept} {
      SameApplication(s, wbc, o.image, target);
    }
  }

  predicate HasTagName(img: Image) {
    img.tag.Some? && img.tag.value.name != ""
  }

  /** An update can be read back: it is not lost, and is one parameter or has a tag name. */
  predicate CanReadBack(o: Outlook, target: Target, lost: bool) {
    !lost && o.Updating? && (target.spec != "" || HasTagName(o.image))
  }

  /** What is read right after an update. */
  lemma ReadAfterUpdate(o: Outlook, s: AppSpec, wbc: Option<WriteBackConfig>, target: Target)
    requires o.Updating? && o.image.name != "" && IsHelmApplication(s, wbc) && IsClear(target)
    ensures GetHelmImage(Set(s, wbc, o.image, target), wbc, target) == Some(GetFullNameWithTag(o.image)) <==>
            CanReadBack(o, target, IsLost(s, wbc))
  {
    assert GetFullNameWithTag(o.image) != "";
    GetAfterSet(s, wbc, o.image, target);
  }

  /** The fate of an image from what is read for it and whether it can be written. */
  function FateFrom(o: Outlook, c: ImageConfig<AppSpec>, read: Option<string>): Fate {
    match o
    case Nothing(fate) => fate
    case Keeping(_) => if read.Some? then Kept else KeepError
    case Updating(image, _, _) =>
      if read.None? then SpecError
      else if read.value == GetFullNameWithTag(image) then AlreadySet
      else if !VerificationPassed(c.verification) then Unverified
      else Updated
  }

  /** On a Helm application, what can be read can be written. */
  lemma FateIsFrom(o: Outlook, c: ImageConfig<AppSpec>, s: AppSpec, wbc: Option<WriteBackConfig>, target: Target)
    requires IsOnHelm(c, wbc, target)
    ensures FateOf(o, c, s) == FateFrom(o, c, GetHelmImage(s, wbc, target))
    ensures GetHelmImage(s, wbc, target).Some? <==> IsHelmApplication(s, wbc)
  {
  }

  /** The fate of an image in a second run, from its fate in the first. */
  function SecondFate(first: Fate, readBack: bool): Fate {
    if first.Updated? && readBack then AlreadySet else first
  }

  /** No outlook but an update ends in an update, and keeping only in a kept image. */
  predicate Sound(o: Outlook) {
    o.Nothing? ==> o.fate in {NotLive, RegistryError, NoTag}
  }

  /**
   Read as right after it, an image meets its second fate: the check for an image already set stops a second update.
   */
  lemma FateLater(o: Outlook, c: ImageConfig<AppSpec>, s: AppSpec, later: AppSpec, wbc: Option<WriteBackConfig>,
                  target: Target)
    requires IsOnHelm(c, wbc, target) && IsClear(target) && Sound(o) && (o.Updating? ==> o.image.name != "")
    requires GetHelmImage(later, wbc, target) == GetHelmImage(After(o, c, s), wbc, target)
    requires IsHelmApplication(later, wbc) <==> IsHelmApplication(s, wbc)
    ensures FateOf(o, c, later) == SecondFate(FateOf(o, c, s), CanReadBack(o, target, IsLost(s, wbc)))
  {
    FateIsFrom(o, c, s, wbc, target);
    FateIsFrom(o, c, later, wbc, target);
    AfterImage(o, c, s, wbc, target);
    if FateOf(o, c, s).Updated? {
      ReadAfterUpdate(o, s, wbc, target);
    }
  }

  /** Where what it wrote is held, an image leaves the application as it is. */
  lemma LeavesAsItIs(o: Outlook, c: ImageConfig<AppSpec>, later: AppSpec, wbc: Option<WriteBackConfig>, target: Target)
    requires IsOnHelm(c, wbc, target)
    requires !o.Nothing? && FateOf(o, c, later) in {Updated, Kept} ==> Holds(later, wbc, o.image, target)
    ensures After(o, c, later) == later
  {
    AfterImage(o, c, later, wbc, target);
  }

  // ---------------------------------------------------------------------------------------------
  // Targets that are shared
  // ---------------------------------------------------------------------------------------------

  /** Both targets name the same parameters, for the same purpose. */
  predicate SameTarget(a: Target, b: Target) {
    a.spec == b.spec && (a.spec != "" || (NameParam(a) == NameParam(b) && TagParam(a) == TagParam(b)))
  }

  /** Writing the image gives a value to every parameter of its target. */
  predicate FillsTarget(img: Image, target: Target) {
    target.spec != "" || GetTagWithDigest(img) != ""
  }

  /** What is read for an image right after it was written. */
  function Shown(img: Image, target: Target): string {
    if target.spec != "" then GetFullNameWithTag(img) else GetFullNameWithoutTag(img) + ":" + GetTagWithDigest(img)
  }

  lemma ReadAfterWrite(s: AppSpec, wbc: Option<WriteBackConfig>, img: Image, target: Target)
    requires IsHelmApplication(s, wbc) && !IsLost(s, wbc) && IsClear(target) && FillsTarget(img, target)
    ensures GetHelmImage(Set(s, wbc, img, target), wbc, target) == Some(Shown(img, target))
  {
    var src := ParamsAt(s, GetApplicationSource(s, wbc));
    SameSourceSelected(s, wbc, Merged(src, ImageParams(img, target)));
    ImageInMerged(src, img, target);
  }

  /** An image is shown by its full name exactly if it is one parameter or has a tag name. */
  lemma ShownInFull(img: Image, target: Target)
    ensures Shown(img, target) == GetFullNameWithTag(img) <==>
            target.spec != "" || HasTagName(img)
  {
    FullNameFromParts(img);
  }

  /**
   Of two images written to one target in turn, the first is found already set afterwards exactly if the other has
   the same full name.
   */
  lemma SharedTargetIsLost(o: Outlook, c: ImageConfig<AppSpec>, other: Outlook, s: AppSpec, s1: AppSpec, s2: AppSpec,
                           wbc: Option<WriteBackConfig>, target: Target)
    requires IsOnHelm(c, wbc, target) && IsHelmApplication(s, wbc) && IsClear(target)
    requires o.Updating? && other.Updating? && other.image.name != "" && CanReadBack(other, target, IsLost(s, wbc))
    requires s1 == Set(s, wbc, o.image, target) && s2 == Set(s1, wbc, other.image, target)
    ensures FateOf(o, c, s2) == AlreadySet <==> GetFullNameWithTag(o.image) == GetFullNameWithTag(other.image)
    ensures FateOf(o, c, s2) != AlreadySet ==>
              FateOf(o, c, s2) == if VerificationPassed(c.verification) then Updated else Unverified
  {
    SameApplication(s, wbc, o.image, target);
    ReadAfterUpdate(other, s1, wbc, target);
    FateIsFrom(o, c, s2, wbc, target);
  }
}

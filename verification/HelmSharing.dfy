/**
 Images that share their parameters (pkg/argocd/update.go, pkg/argocd/argocd.go). Any two images that are left on the
 default parameters do, so that each writes over the other.
 */
module HelmSharing {
  import opened Options
  import opened ImageRef
  import opened HelmParams
  import opened UpdateLoop
  import opened HelmTargets
  import opened HelmRuns
  import opened HelmWrites
  import opened Repositories
  import opened Sequences

  // ---------------------------------------------------------------------------------------------
  // Any targets: who has written a parameter last
  // ---------------------------------------------------------------------------------------------

  lemma ReadIsFromValues(s: AppSpec, wbc: Option<WriteBackConfig>, target: Target, value: string -> Option<string>)
    requires IsHelmApplication(s, wbc)
    requires forall name :: name in ParamNames(target) ==> value(name) == ValueIn(s, wbc, name)
    ensures GetHelmImage(s, wbc, target) == Some(ImageFrom(value, target))
  {
    if target.spec == "" {
      assert NameParam(target) in ParamNames(target) && TagParam(target) in ParamNames(target);
    } else {
      assert target.spec in ParamNames(target);
    }
  }

  /** The image needs an update that nothing but finding it already set would stop. */
  predicate IsAble(o: Outlook, c: ImageConfig<AppSpec>) {
    o.Updating? && VerificationPassed(c.verification)
  }

  /**
   The parameters of an image will make up its full name when a second run comes to it, if that has updated nothing
   before: each has the value given by the last kept image before it, else by the last image that wrote in the first
   run, else the one it had. In a lost application there are no parameters.
   */
  predicate WillBeFound(outs: seq<Outlook>, targets: seq<Target>, wrote: seq<bool>, was: string -> Option<string>,
                        lost: bool, i: nat)
    requires i < |outs| == |targets| == |wrote| && outs[i].Updating?
  {
    GetFullNameWithTag(outs[i].image) ==
    if lost then "" else ImageFrom(SecondValue(outs, targets, wrote, was, i), targets[i])
  }

  function SecondValue(outs: seq<Outlook>, targets: seq<Target>, wrote: seq<bool>, was: string -> Option<string>,
                       i: nat): string -> Option<string>
    requires i < |outs| == |targets| == |wrote|
  {
    name => LastGiven(outs, targets, AreKept(outs), i, name, LastGiven(outs, targets, wrote, |outs|, name, was(name)))
  }

  /** A run of the loop from `s` to `end`, with its fates, and the fates of a second one. */
  ghost predicate Again(outs: seq<Outlook>, images: seq<ImageConfig<AppSpec>>, targets: seq<Target>,
                        wbc: Option<WriteBackConfig>, s: AppSpec, end: AppSpec, first: seq<Fate>, second: seq<Fate>) {
    && OnHelm(images, targets, wbc) && |outs| == |images| && (forall i :: 0 <= i < |outs| ==> Sound(outs[i]))
    && end == StateAt(outs, images, s, |images|)
    && first == Fates(outs, images, s, |images|) && second == Fates(outs, images, end, |images|)
  }

  function Was(s: AppSpec, wbc: Option<WriteBackConfig>): string -> Option<string> {
    name => ValueIn(s, wbc, name)
  }

  /** The second run up to an image, as long as it has updated nothing: only kept images have written. */
  lemma SecondValueIs(outs: seq<Outlook>, images: seq<ImageConfig<AppSpec>>, targets: seq<Target>,
                      wbc: Option<WriteBackConfig>, s: AppSpec, end: AppSpec, first: seq<Fate>, second: seq<Fate>,
                      i: nat, now: AppSpec, name: string)
    requires Again(outs, images, targets, wbc, s, end, first, second) && IsReady(s, wbc)
    requires i < |images| && NoneUpdated(second, i) && now == StateAt(outs, images, end, i)
    ensures ValueIn(now, wbc, name) == SecondValue(outs, targets, HaveWritten(first), Was(s, wbc), i)(name)
  {
    var wrote, writes, kept := HaveWritten(first), HaveWritten(second), AreKept(outs);
    RunSame(outs, images, targets, wbc, s, |images|, end);
    AreFates(outs, images, s, first);
    ValueAfterRun(outs, images, targets, wbc, s, |images|, name, wrote);
    AreFates(outs, images, end, second);
    ValueAfterRun(outs, images, targets, wbc, end, i, name, writes);
    forall j | 0 <= j < i && !outs[j].Nothing? ensures writes[j] == kept[j] {
      OnlyKeptWrite(outs, images, targets, wbc, end, j, StateAt(outs, images, end, j));
    }
    LastGivenSame(outs, targets, writes, kept, i, name, ValueIn(end, wbc, name));
  }

  lemma OnlyKeptWrite(outs: seq<Outlook>, images: seq<ImageConfig<AppSpec>>, targets: seq<Target>,
                      wbc: Option<WriteBackConfig>, s: AppSpec, j: nat, before: AppSpec)
    requires OnHelm(images, targets, wbc) && j < |images| == |outs| && IsHelmApplication(s, wbc)
    requires before == StateAt(outs, images, s, j) && !outs[j].Nothing? && FateAt(outs, images, s, j) != Updated
    ensures FateAt(outs, images, s, j) == Kept <==> outs[j].Keeping?
  {
    RunSame(outs, images, targets, wbc, s, j, before);
    FateIsFrom(outs[j], images[j], before, wbc, targets[j]);
  }

  /** If the second run has updated nothing before, it updates an image exactly if that is able and not found set. */
  lemma SecondUpdate(outs: seq<Outlook>, images: seq<ImageConfig<AppSpec>>, targets: seq<Target>,
                     wbc: Option<WriteBackConfig>, s: AppSpec, end: AppSpec, first: seq<Fate>, second: seq<Fate>,
                     i: nat)
    requires Again(outs, images, targets, wbc, s, end, first, second) && IsHelmApplication(s, wbc)
    requires i < |images| && NoneUpdated(second, i)
    ensures second[i] == Updated <==>
            IsAble(outs[i], images[i]) &&
            !WillBeFound(outs, targets, HaveWritten(first), Was(s, wbc), IsLost(s, wbc), i)
  {
    var now: AppSpec := StateAt(outs, images, end, i);
    RunSame(outs, images, targets, wbc, s, |images|, end);
    RunSame(outs, images, targets, wbc, end, i, now);
    FatesAt(outs, images, end, |images|, i);
    FateIsFrom(outs[i], images[i], now, wbc, targets[i]);
    if outs[i].Updating? && !IsLost(s, wbc) {
      var value := SecondValue(outs, targets, HaveWritten(first), Was(s, wbc), i);
      forall name | name in ParamNames(targets[i]) ensures value(name) == ValueIn(now, wbc, name) {
        SecondValueIs(outs, images, targets, wbc, s, end, first, second, i, now, name);
      }
      ReadIsFromValues(now, wbc, targets[i], value);
    }
  }

  /** All images that are able to be updated will be found set. */
  predicate AllWillBeFound(outs: seq<Outlook>, images: seq<ImageConfig<AppSpec>>, targets: seq<Target>,
                           wrote: seq<bool>, was: string -> Option<string>, lost: bool)
    requires |outs| == |targets| == |wrote| == |images|
  {
    forall i :: 0 <= i < |outs| && IsAble(outs[i], images[i]) ==> WillBeFound(outs, targets, wrote, was, lost, i)
  }

  predicate NoneUpdated(fates: seq<Fate>, n: nat)
    requires n <= |fates|
  {
    forall j :: 0 <= j < n ==> fates[j] != Updated
  }

  lemma {:induction false} AllFoundSoFar(outs: seq<Outlook>, images: seq<ImageConfig<AppSpec>>, targets: seq<Target>,
                                         wbc: Option<WriteBackConfig>, s: AppSpec, end: AppSpec, first: seq<Fate>,
                                         second: seq<Fate>, n: nat)
    requires Again(outs, images, targets, wbc, s, end, first, second) && IsHelmApplication(s, wbc) && n <= |images|
    requires AllWillBeFound(outs, images, targets, HaveWritten(first), Was(s, wbc), IsLost(s, wbc))
    ensures NoneUpdated(second, n)
  {
    if n > 0 {
      AllFoundSoFar(outs, images, targets, wbc, s, end, first, second, n - 1);
      SecondUpdate(outs, images, targets, wbc, s, end, first, second, n - 1);
    }
  }

  lemma UpdatedIfUnset(outs: seq<Outlook>, images: seq<ImageConfig<AppSpec>>, targets: seq<Target>,
                       wbc: Option<WriteBackConfig>, s: AppSpec, end: AppSpec, first: seq<Fate>, second: seq<Fate>)
    requires Again(outs, images, targets, wbc, s, end, first, second) && IsHelmApplication(s, wbc)
    requires NoneUpdated(second, |images|)
    ensures AllWillBeFound(outs, images, targets, HaveWritten(first), Was(s, wbc), IsLost(s, wbc))
  {
    forall i | 0 <= i < |outs| && IsAble(outs[i], images[i])
      ensures WillBeFound(outs, targets, HaveWritten(first), Was(s, wbc), IsLost(s, wbc), i)
    {
      SecondUpdate(outs, images, targets, wbc, s, end, first, second, i);
    }
  }

  /**
   A second run over any targets, shared or not, updates nothing exactly if every image that is able to be updated
   will be found set.
   */
  lemma NothingFoundUnset(outs: seq<Outlook>, images: seq<ImageConfig<AppSpec>>, targets: seq<Target>,
                          wbc: Option<WriteBackConfig>, s: AppSpec, end: AppSpec, first: seq<Fate>, second: seq<Fate>)
    requires Again(outs, images, targets, wbc, s, end, first, second)
    ensures NoneUpdated(second, |images|) <==>
            (IsHelmApplication(s, wbc) ==>
               AllWillBeFound(outs, images, targets, HaveWritten(first), Was(s, wbc), IsLost(s, wbc)))
  {
    if !IsHelmApplication(s, wbc) {
      forall j | 0 <= j < |images| ensures second[j] != Updated {
        NoHelmNoUpdate(outs, images, targets, wbc, s, end, first, second, j);
      }
    } else if NoneUpdated(second, |images|) {
      UpdatedIfUnset(outs, images, targets, wbc, s, end, first, second);
    } else if AllWillBeFound(outs, images, targets, HaveWritten(first), Was(s, wbc), IsLost(s, wbc)) {
      AllFoundSoFar(outs, images, targets, wbc, s, end, first, second, |images|);
    }
  }

  lemma NoHelmNoUpdate(outs: seq<Outlook>, images: seq<ImageConfig<AppSpec>>, targets: seq<Target>,
                       wbc: Option<WriteBackConfig>, s: AppSpec, end: AppSpec, first: seq<Fate>, second: seq<Fate>,
                       j: nat)
    requires Again(outs, images, targets, wbc, s, end, first, second) && j < |images| && !IsHelmApplication(s, wbc)
    ensures second[j] != Updated
  {
    var now: AppSpec := StateAt(outs, images, end, j);
    RunSame(outs, images, targets, wbc, s, |images|, end);
    RunSame(outs, images, targets, wbc, end, j, now);
    FatesAt(outs, images, end, |images|, j);
    FateIsFrom(outs[j], images[j], now, wbc, targets[j]);
  }

  // ---------------------------------------------------------------------------------------------
  // Targets that are the same or have nothing in common
  // ---------------------------------------------------------------------------------------------

  /** The target is clear, and the image written there is shown in full, or fills it if it is one that is kept. */
  predicate IsTidy(o: Outlook, target: Target) {
    && IsClear(target)
    && (o.Keeping? ==> FillsTarget(o.image, target))
    && (o.Updating? ==> target.spec != "" || HasTagName(o.image))
  }

  predicate SameOrApart(a: Target, b: Target) {
    SameTarget(a, b) || ParamNames(a) !! ParamNames(b)
  }

  /** The images of the loop are on targets that are shared as a whole or not at all. */
  ghost predicate Sharing(outs: seq<Outlook>, images: seq<ImageConfig<AppSpec>>, targets: seq<Target>,
                          wbc: Option<WriteBackConfig>) {
    && OnHelm(images, targets, wbc) && |outs| == |images|
    && (forall i :: 0 <= i < |outs| ==> Sound(outs[i]) && IsTidy(outs[i], targets[i]))
    && (forall i, j {:trigger SameOrApart(targets[i], targets[j])} :: 0 <= i < |targets| && 0 <= j < |targets| ==>
          SameOrApart(targets[i], targets[j]))
  }

  /** What is written to the application can be read. */
  predicate IsReady(s: AppSpec, wbc: Option<WriteBackConfig>) {
    IsHelmApplication(s, wbc) && !IsLost(s, wbc)
  }

  /** Once its turn has come, the image is shown on its target: it is written, or was found. */
  predicate TakesPart(o: Outlook, c: ImageConfig<AppSpec>) {
    o.Keeping? || IsAble(o, c)
  }

  /** The last of the first `n` images that takes part on a target, or -1. */
  function LastOn(outs: seq<Outlook>, images: seq<ImageConfig<AppSpec>>, targets: seq<Target>, target: Target, n: nat):
    (r: int)
    requires n <= |outs| == |images| == |targets|
    ensures -1 <= r < n
    ensures r >= 0 ==> TakesPart(outs[r], images[r]) && SameTarget(targets[r], target)
  {
    if n == 0 then -1
    else if TakesPart(outs[n - 1], images[n - 1]) && SameTarget(targets[n - 1], target) then n - 1
    else LastOn(outs, images, targets, target, n - 1)
  }

  lemma {:induction false} LastOnIsLast(outs: seq<Outlook>, images: seq<ImageConfig<AppSpec>>, targets: seq<Target>,
                                        target: Target, n: nat, i: nat)
    requires i < n <= |outs| == |images| == |targets|
    requires TakesPart(outs[i], images[i]) && SameTarget(targets[i], target)
    ensures LastOn(outs, images, targets, target, n) >= i
  {
    if i < n - 1 {
      LastOnIsLast(outs, images, targets, target, n - 1, i);
    }
  }

  /** What is read on a target after an image that is on it. */
  lemma ReadAfterOwn(o: Outlook, c: ImageConfig<AppSpec>, s: AppSpec, s': AppSpec, wbc: Option<WriteBackConfig>,
                     target: Target)
    requires IsOnHelm(c, wbc, target) && Sound(o) && IsTidy(o, target)
    requires s' == After(o, c, s) && IsReady(s, wbc)
    ensures GetHelmImage(s', wbc, target) ==
            if TakesPart(o, c) then Some(Shown(o.image, target)) else GetHelmImage(s, wbc, target)
  {
    AfterImage(o, c, s, wbc, target);
    FateIsFrom(o, c, s, wbc, target);
    if TakesPart(o, c) {
      ShownInFull(o.image, target);
      ReadAfterWrite(s, wbc, o.image, target);
    }
  }

  lemma ReadOfSame(s: AppSpec, wbc: Option<WriteBackConfig>, img: Image, a: Target, b: Target)
    requires SameTarget(a, b)
    ensures GetHelmImage(s, wbc, a) == GetHelmImage(s, wbc, b) && Shown(img, a) == Shown(img, b)
  {
  }

  /** What is read on a target after an image that may be on it. */
  lemma ReadAfterOne(o: Outlook, c: ImageConfig<AppSpec>, s: AppSpec, s': AppSpec, wbc: Option<WriteBackConfig>,
                     own: Target, target: Target)
    requires IsOnHelm(c, wbc, own) && Sound(o) && IsTidy(o, own) && SameOrApart(own, target)
    requires s' == After(o, c, s) && IsReady(s, wbc)
    ensures GetHelmImage(s', wbc, target) ==
            if TakesPart(o, c) && SameTarget(own, target) then Some(Shown(o.image, target))
            else GetHelmImage(s, wbc, target)
  {
    if SameTarget(own, target) {
      ReadAfterOwn(o, c, s, s', wbc, own);
      ReadOfSame(s, wbc, if o.Nothing? then NO_IMAGE else o.image, own, target);
      ReadOfSame(s', wbc, NO_IMAGE, own, target);
    } else {
      AfterOther(o, c, s, s', wbc, own, NO_IMAGE, target);
    }
  }

  const NO_IMAGE := Image("", "", "", None)

  /** What is read on a target after `n` images, if `was` was read before: the last that took part on it. */
  predicate ReadIs(outs: seq<Outlook>, images: seq<ImageConfig<AppSpec>>, targets: seq<Target>, target: Target, n: nat,
                   was: Option<string>, now: Option<string>)
    requires n <= |outs| == |images| == |targets|
  {
    var j := LastOn(outs, images, targets, target, n);
    now == if j < 0 then was else Some(Shown(outs[j].image, target))
  }

  /** Reads of a target before and after each image follow the last that took part on it. */
  lemma {:induction false} ReadsAre(outs: seq<Outlook>, images: seq<ImageConfig<AppSpec>>, targets: seq<Target>,
                                    target: Target, texts: seq<Option<string>>, n: nat)
    requires n <= |outs| == |images| == |targets| && n < |texts|
    requires forall k :: 0 <= k < n ==> texts[k + 1] == ReadNext(outs[k], images[k], targets[k], target, texts[k])
    ensures ReadIs(outs, images, targets, target, n, texts[0], texts[n])
  {
    if n > 0 {
      ReadsAre(outs, images, targets, target, texts, n - 1);
      assert texts[n - 1 + 1] == ReadNext(outs[n - 1], images[n - 1], targets[n - 1], target, texts[n - 1]);
    }
  }

  function ReadNext(o: Outlook, c: ImageConfig<AppSpec>, own: Target, target: Target, before: Option<string>):
    Option<string> {
    if TakesPart(o, c) && SameTarget(own, target) then Some(Shown(o.image, target)) else before
  }

  lemma ReadStep(outs: seq<Outlook>, images: seq<ImageConfig<AppSpec>>, targets: seq<Target>,
                 wbc: Option<WriteBackConfig>, s: AppSpec, i: nat, k: nat, before: AppSpec, now: AppSpec)
    requires Sharing(outs, images, targets, wbc) && IsReady(s, wbc) && i < |images| && k < |images|
    requires before == StateAt(outs, images, s, k) && now == StateAt(outs, images, s, k + 1)
    ensures GetHelmImage(now, wbc, targets[i]) ==
            ReadNext(outs[k], images[k], targets[k], targets[i], GetHelmImage(before, wbc, targets[i]))
  {
    RunSame(outs, images, targets, wbc, s, k, before);
    ReadAfterOne(outs[k], images[k], before, now, wbc, targets[k], targets[i]);
  }

  lemma ReadDuringRun(outs: seq<Outlook>, images: seq<ImageConfig<AppSpec>>, targets: seq<Target>,
                      wbc: Option<WriteBackConfig>, s: AppSpec, i: nat, n: nat)
    requires Sharing(outs, images, targets, wbc) && IsReady(s, wbc) && i < |images| && n <= |images|
    ensures ReadIs(outs, images, targets, targets[i], n, GetHelmImage(s, wbc, targets[i]),
                   GetHelmImage(StateAt(outs, images, s, n), wbc, targets[i]))
  {
    var texts := TextsOf(outs, images, wbc, s, targets[i]);
    forall k | 0 <= k < |images|
      ensures texts[k + 1] == ReadNext(outs[k], images[k], targets[k], targets[i], texts[k])
    {
      ReadStep(outs, images, targets, wbc, s, i, k, StateAt(outs, images, s, k), StateAt(outs, images, s, k + 1));
    }
    ReadsAre(outs, images, targets, targets[i], texts, n);
  }

  /** What is read on a target before each image, and at the end. */
  function TextsOf(outs: seq<Outlook>, images: seq<ImageConfig<AppSpec>>, wbc: Option<WriteBackConfig>, s: AppSpec,
                   target: Target): (r: seq<Option<string>>)
    requires |outs| == |images|
    ensures |r| == |images| + 1
    ensures forall k :: 0 <= k <= |images| ==> r[k] == GetHelmImage(StateAt(outs, images, s, k), wbc, target)
  {
    seq(|images| + 1, k requires 0 <= k <= |images| => GetHelmImage(StateAt(outs, images, s, k), wbc, target))
  }

  /** The image shown on a target when a second run comes to image `i`: the last before it, else the last of all. */
  function ShownBefore(outs: seq<Outlook>, images: seq<ImageConfig<AppSpec>>, targets: seq<Target>, i: nat): (r: nat)
    requires i < |outs| == |images| == |targets| && TakesPart(outs[i], images[i])
    ensures r < |outs| && TakesPart(outs[r], images[r]) && SameTarget(targets[r], targets[i])
  {
    var before := LastOn(outs, images, targets, targets[i], i);
    if before >= 0 then before
    else
      LastOnIsLast(outs, images, targets, targets[i], |outs|, i);
      LastOn(outs, images, targets, targets[i], |outs|)
  }

  predicate IsFound(outs: seq<Outlook>, images: seq<ImageConfig<AppSpec>>, targets: seq<Target>, i: nat)
    requires i < |outs| == |images| == |targets| && IsAble(outs[i], images[i])
  {
    Shown(outs[ShownBefore(outs, images, targets, i)].image, targets[i]) == GetFullNameWithTag(outs[i].image)
  }

  /**
   In a second run an image that is able to be updated is found already set exactly if the image that took part on
   its target last is shown by the same name; otherwise it is updated again. No other image is updated.
   */
  lemma SharedFate(outs: seq<Outlook>, images: seq<ImageConfig<AppSpec>>, targets: seq<Target>,
                   wbc: Option<WriteBackConfig>, s: AppSpec, end: AppSpec, i: nat)
    requires Sharing(outs, images, targets, wbc) && IsReady(s, wbc) && i < |images|
    requires end == StateAt(outs, images, s, |images|)
    ensures IsAble(outs[i], images[i]) ==>
              FateAt(outs, images, end, i) == if IsFound(outs, images, targets, i) then AlreadySet else Updated
    ensures !IsAble(outs[i], images[i]) ==> FateAt(outs, images, end, i) != Updated
  {
    var now: AppSpec := StateAt(outs, images, end, i);
    RunSame(outs, images, targets, wbc, s, |images|, end);
    RunSame(outs, images, targets, wbc, end, i, now);
    FateIsFrom(outs[i], images[i], now, wbc, targets[i]);
    ReadDuringRun(outs, images, targets, wbc, s, i, |images|);
    ReadDuringRun(outs, images, targets, wbc, end, i, i);
  }

  // ---------------------------------------------------------------------------------------------
  // What a second run leaves
  // ---------------------------------------------------------------------------------------------

  /** An image in a run over shared targets: what is read when its turn comes decides, from the second on a target. */
  lemma TurnOf(outs: seq<Outlook>, images: seq<ImageConfig<AppSpec>>, targets: seq<Target>,
               wbc: Option<WriteBackConfig>, s: AppSpec, i: nat, m: nat)
    requires Sharing(outs, images, targets, wbc) && IsReady(s, wbc) && i < |images| && m < |images|
    requires SameTarget(targets[i], targets[m])
    ensures var fate, j := FateAt(outs, images, s, i), LastOn(outs, images, targets, targets[m], i);
            && (outs[i].Keeping? ==> fate == Kept)
            && (IsAble(outs[i], images[i]) ==> fate in {AlreadySet, Updated})
            && (IsAble(outs[i], images[i]) && j >= 0 ==>
                  (fate == AlreadySet <==> Shown(outs[j].image, targets[m]) == GetFullNameWithTag(outs[i].image)))
            && (!TakesPart(outs[i], images[i]) ==> fate !in {Updated, Kept})
  {
    var now: AppSpec := StateAt(outs, images, s, i);
    RunSame(outs, images, targets, wbc, s, i, now);
    FateIsFrom(outs[i], images[i], now, wbc, targets[i]);
    ReadDuringRun(outs, images, targets, wbc, s, m, i);
  }

  /** The last of the first `n` images that writes to a target, or -1. */
  function LastWriter(targets: seq<Target>, writes: seq<bool>, target: Target, n: nat): (r: int)
    requires n <= |targets| == |writes|
    ensures -1 <= r < n
    ensures r >= 0 ==> writes[r] && SameTarget(targets[r], target)
  {
    if n == 0 then -1
    else if writes[n - 1] && SameTarget(targets[n - 1], target) then n - 1
    else LastWriter(targets, writes, target, n - 1)
  }

  /** Every image that writes gives all the parameters of its target their values, so the last one counts. */
  lemma {:induction false} LastWriterGives(outs: seq<Outlook>, targets: seq<Target>, writes: seq<bool>, i: nat, n: nat,
                                           name: string)
    requires n <= |outs| == |targets| == |writes| && i < |targets| && name in ParamNames(targets[i])
    requires forall j :: 0 <= j < n ==> SameOrApart(targets[j], targets[i])
    requires forall j :: 0 <= j < n && writes[j] ==> !outs[j].Nothing? && FillsTarget(outs[j].image, targets[j])
    ensures var z := LastWriter(targets, writes, targets[i], n);
            LastGiven(outs, targets, writes, n, name, None) == if z < 0 then None else Given(outs[z], targets[z], name)
    decreases n
  {
    if n > 0 {
      LastWriterGives(outs, targets, writes, i, n - 1, name);
      if writes[n - 1] {
        GivesIfOnTarget(outs[n - 1].image, targets[n - 1], targets[i], name);
      }
    }
  }

  lemma GivesIfOnTarget(img: Image, own: Target, target: Target, name: string)
    requires SameOrApart(own, target) && FillsTarget(img, own) && name in ParamNames(target)
    ensures ValueOf(ImageParams(img, own), name).Some? <==> SameTarget(own, target)
  {
    WritesOnlyItsNames(img, own);
    if SameTarget(own, target) {
      var params := ImageParams(img, own);
      assert params[0].name == name || (|params| == 2 && params[1].name == name);
    } else {
      assert name !in ParamNames(own);
    }
  }

  /**
   Two runs write a target last by the same image, or differ in its first image only, which all the others on the
   target up to `n` then show.
   */
  predicate SameWriters(outs: seq<Outlook>, images: seq<ImageConfig<AppSpec>>, targets: seq<Target>, a: seq<bool>,
                        b: seq<bool>, target: Target, n: nat)
    requires n <= |outs| == |images| == |targets| == |a| == |b|
  {
    var x, y := LastWriter(targets, a, target, n), LastWriter(targets, b, target, n);
    var last := LastOn(outs, images, targets, target, n);
    && (x != y ==> OnlyFirst(outs, images, targets, target, last, if x > y then x else y) && (x < 0 || y < 0))
    && (last < 0 ==> x == y == -1)
  }

  predicate OnlyFirst(outs: seq<Outlook>, images: seq<ImageConfig<AppSpec>>, targets: seq<Target>, target: Target,
                      last: int, first: int)
    requires -1 <= last < |outs| == |images| == |targets| && (last >= 0 ==> !outs[last].Nothing?)
  {
    && 0 <= first < |outs| && 0 <= last && IsAble(outs[first], images[first])
    && LastOn(outs, images, targets, target, first) == -1
    && Shown(outs[last].image, target) == GetFullNameWithTag(outs[first].image)
  }

  /** Both runs let an image write alike, but for the first on a target. */
  predicate SameTurn(outs: seq<Outlook>, images: seq<ImageConfig<AppSpec>>, targets: seq<Target>, a: bool, b: bool,
                     target: Target, n: nat)
    requires n < |outs| == |images| == |targets|
  {
    var last := LastOn(outs, images, targets, target, n);
    && (!TakesPart(outs[n], images[n]) ==> !a && !b)
    && (outs[n].Keeping? ==> a && b)
    && (IsAble(outs[n], images[n]) ==> Shown(outs[n].image, target) == GetFullNameWithTag(outs[n].image))
    && (IsAble(outs[n], images[n]) && last >= 0 ==>
          (a <==> Shown(outs[last].image, target) != GetFullNameWithTag(outs[n].image)) && (b <==> a))
  }

  lemma SameWritersMore(outs: seq<Outlook>, images: seq<ImageConfig<AppSpec>>, targets: seq<Target>, a: seq<bool>,
                        b: seq<bool>, target: Target, n: nat)
    requires n < |outs| == |images| == |targets| == |a| == |b|
    requires SameWriters(outs, images, targets, a, b, target, n)
    requires SameTarget(targets[n], target) ==> SameTurn(outs, images, targets, a[n], b[n], target, n)
    ensures SameWriters(outs, images, targets, a, b, target, n + 1)
  {
  }

  lemma TurnIsSame(outs: seq<Outlook>, images: seq<ImageConfig<AppSpec>>, targets: seq<Target>,
                   wbc: Option<WriteBackConfig>, s: AppSpec, end: AppSpec, m: nat, n: nat)
    requires Sharing(outs, images, targets, wbc) && IsReady(s, wbc) && IsReady(end, wbc)
    requires m < |images| && n < |images| && SameTarget(targets[n], targets[m])
    ensures SameTurn(outs, images, targets, FateAt(outs, images, s, n) in {Updated, Kept},
                     FateAt(outs, images, end, n) in {Updated, Kept}, targets[m], n)
  {
    TurnOf(outs, images, targets, wbc, s, n, m);
    TurnOf(outs, images, targets, wbc, end, n, m);
    if IsAble(outs[n], images[n]) {
      ShownInFull(outs[n].image, targets[m]);
    }
  }

  predicate AllSameTurns(outs: seq<Outlook>, images: seq<ImageConfig<AppSpec>>, targets: seq<Target>, a: seq<bool>,
                         b: seq<bool>, target: Target) {
    && |outs| == |images| == |targets| == |a| == |b|
    && forall k :: 0 <= k < |outs| && SameTarget(targets[k], target) ==>
                     SameTurn(outs, images, targets, a[k], b[k], target, k)
  }

  lemma {:induction false} WritersAgree(outs: seq<Outlook>, images: seq<ImageConfig<AppSpec>>, targets: seq<Target>,
                                        a: seq<bool>, b: seq<bool>, target: Target, n: nat)
    requires AllSameTurns(outs, images, targets, a, b, target) && n <= |outs|
    ensures SameWriters(outs, images, targets, a, b, target, n)
  {
    if n > 0 {
      WritersAgree(outs, images, targets, a, b, target, n - 1);
      SameWritersMore(outs, images, targets, a, b, target, n - 1);
    }
  }

  lemma WritersAreSame(outs: seq<Outlook>, images: seq<ImageConfig<AppSpec>>, targets: seq<Target>,
                       wbc: Option<WriteBackConfig>, s: AppSpec, end: AppSpec, a: seq<bool>, b: seq<bool>, m: nat)
    requires Sharing(outs, images, targets, wbc) && IsReady(s, wbc) && IsReady(end, wbc) && m < |images|
    requires AreWriters(outs, images, s, a) && AreWriters(outs, images, end, b)
    ensures SameWriters(outs, images, targets, a, b, targets[m], |images|)
  {
    forall n | 0 <= n < |images| && SameTarget(targets[n], targets[m])
      ensures SameTurn(outs, images, targets, a[n], b[n], targets[m], n)
    {
      TurnIsSame(outs, images, targets, wbc, s, end, m, n);
    }
    WritersAgree(outs, images, targets, a, b, targets[m], |images|);
  }

  lemma {:induction false} LastOnSame(outs: seq<Outlook>, images: seq<ImageConfig<AppSpec>>, targets: seq<Target>,
                                      a: Target, b: Target, n: nat)
    requires n <= |outs| == |images| == |targets| && SameTarget(a, b)
    ensures LastOn(outs, images, targets, a, n) == LastOn(outs, images, targets, b, n)
  {
    if n > 0 {
      LastOnSame(outs, images, targets, a, b, n - 1);
    }
  }

  /** Both runs over shared targets, with who writes in them. */
  ghost predicate SharingTwice(outs: seq<Outlook>, images: seq<ImageConfig<AppSpec>>, targets: seq<Target>,
                               wbc: Option<WriteBackConfig>, s: AppSpec, end: AppSpec, a: seq<bool>, b: seq<bool>) {
    && Sharing(outs, images, targets, wbc) && IsReady(s, wbc) && end == StateAt(outs, images, s, |images|)
    && IsReady(end, wbc) && |a| == |b| == |images|
    && AreWriters(outs, images, s, a) && AreWriters(outs, images, end, b)
  }

  /** If the second run writes a target at all, the last to do so is the one that was last in the first run. */
  lemma SecondWriter(outs: seq<Outlook>, images: seq<ImageConfig<AppSpec>>, targets: seq<Target>,
                     wbc: Option<WriteBackConfig>, s: AppSpec, end: AppSpec, a: seq<bool>, b: seq<bool>, m: nat)
    requires SharingTwice(outs, images, targets, wbc, s, end, a, b) && m < |images|
    ensures var y := LastWriter(targets, b, targets[m], |images|);
            y >= 0 ==> y == LastWriter(targets, a, targets[m], |images|)
  {
    WritersAreSame(outs, images, targets, wbc, s, end, a, b, m);
    var y := LastWriter(targets, b, targets[m], |images|);
    if y >= 0 && y != LastWriter(targets, a, targets[m], |images|) {
      SharedFate(outs, images, targets, wbc, s, end, y);
      LastOnSame(outs, images, targets, targets[y], targets[m], y);
      LastOnSame(outs, images, targets, targets[y], targets[m], |images|);
    }
  }

  lemma {:induction false} GivenOnTarget(outs: seq<Outlook>, targets: seq<Target>, writes: seq<bool>, n: nat,
                                         name: string)
    returns (m: nat)
    requires n <= |outs| == |targets| == |writes| && LastGiven(outs, targets, writes, n, name, None).Some?
    ensures m < n && name in ParamNames(targets[m])
  {
    m := n - 1;
    if writes[m] && Given(outs[m], targets[m], name).Some? {
      WritesOnlyItsNames(outs[m].image, targets[m]);
    } else {
      m := GivenOnTarget(outs, targets, writes, n - 1, name);
    }
  }

  /** A value the second run gives to a parameter is the one it had from the first. */
  lemma GivenAgain(outs: seq<Outlook>, images: seq<ImageConfig<AppSpec>>, targets: seq<Target>,
                   wbc: Option<WriteBackConfig>, s: AppSpec, end: AppSpec, a: seq<bool>, b: seq<bool>, name: string)
    requires SharingTwice(outs, images, targets, wbc, s, end, a, b)
    ensures var given := LastGiven(outs, targets, b, |images|, name, None);
            given.Some? ==> given == LastGiven(outs, targets, a, |images|, name, None)
  {
    if LastGiven(outs, targets, b, |images|, name, None).Some? {
      var m := GivenOnTarget(outs, targets, b, |images|, name);
      SecondWriter(outs, images, targets, wbc, s, end, a, b, m);
      WritersFill(outs, images, targets, wbc, s, a);
      WritersFill(outs, images, targets, wbc, end, b);
      LastWriterGives(outs, targets, a, m, |images|, name);
      LastWriterGives(outs, targets, b, m, |images|, name);
    }
  }

  lemma WritersFill(outs: seq<Outlook>, images: seq<ImageConfig<AppSpec>>, targets: seq<Target>,
                    wbc: Option<WriteBackConfig>, s: AppSpec, writes: seq<bool>)
    requires Sharing(outs, images, targets, wbc) && IsReady(s, wbc) && AreWriters(outs, images, s, writes)
    ensures forall j :: 0 <= j < |images| && writes[j] ==> !outs[j].Nothing? && FillsTarget(outs[j].image, targets[j])
  {
  }

  /** The place `k` of the parameters is as the first run has left it. */
  lemma PlaceAgain(outs: seq<Outlook>, images: seq<ImageConfig<AppSpec>>, targets: seq<Target>,
                   wbc: Option<WriteBackConfig>, s: AppSpec, end: AppSpec, a: seq<bool>, b: seq<bool>, later: AppSpec,
                   k: nat)
    requires SharingTwice(outs, images, targets, wbc, s, end, a, b) && later == StateAt(outs, images, end, |images|)
    requires k < |Params(later, wbc)|
    ensures k < |Params(end, wbc)| && Params(later, wbc)[k] == Params(end, wbc)[k]
  {
    var name := Params(later, wbc)[k].name;
    GivenAgain(outs, images, targets, wbc, s, end, a, b, name);
    PlaceAfterRun(outs, images, targets, wbc, end, |images|, later, b, k);
    ValueAfterRun(outs, images, targets, wbc, s, |images|, name, a);
    LastGivenOver(outs, targets, a, |images|, name, ValueIn(s, wbc, name));
    if LastGiven(outs, targets, b, |images|, name, None).Some? {
      assert Names(Params(end, wbc), name);
      PlaceAfterRun(outs, images, targets, wbc, s, |images|, end, a, k);
    }
  }

  lemma {:induction false} LastGivenOver(outs: seq<Outlook>, targets: seq<Target>, writes: seq<bool>, n: nat,
                                         name: string, was: Option<string>)
    requires n <= |outs| == |targets| == |writes|
    ensures LastGiven(outs, targets, writes, n, name, None).Some? ==>
              LastGiven(outs, targets, writes, n, name, was) == LastGiven(outs, targets, writes, n, name, None)
  {
    if n > 0 {
      LastGivenOver(outs, targets, writes, n - 1, name, was);
    }
  }

  lemma ParamsAgain(outs: seq<Outlook>, images: seq<ImageConfig<AppSpec>>, targets: seq<Target>,
                    wbc: Option<WriteBackConfig>, s: AppSpec, end: AppSpec, a: seq<bool>, b: seq<bool>, later: AppSpec)
    requires SharingTwice(outs, images, targets, wbc, s, end, a, b) && later == StateAt(outs, images, end, |images|)
    requires |Params(end, wbc)| <= |Params(later, wbc)|
    ensures Params(later, wbc) == Params(end, wbc)
  {
    forall k | 0 <= k < |Params(later, wbc)|
      ensures k < |Params(end, wbc)| && Params(later, wbc)[k] == Params(end, wbc)[k]
    {
      PlaceAgain(outs, images, targets, wbc, s, end, a, b, later, k);
    }
    if |Params(later, wbc)| > |Params(end, wbc)| {
      PlaceAgain(outs, images, targets, wbc, s, end, a, b, later, |Params(end, wbc)|);
    }
  }

  lemma BothRuns(outs: seq<Outlook>, images: seq<ImageConfig<AppSpec>>, targets: seq<Target>,
                 wbc: Option<WriteBackConfig>, s: AppSpec, end: AppSpec) returns (a: seq<bool>, b: seq<bool>)
    requires Sharing(outs, images, targets, wbc) && IsReady(s, wbc) && end == StateAt(outs, images, s, |images|)
    ensures SharingTwice(outs, images, targets, wbc, s, end, a, b)
  {
    var first, second := Fates(outs, images, s, |images|), Fates(outs, images, end, |images|);
    a, b := HaveWritten(first), HaveWritten(second);
    RunSame(outs, images, targets, wbc, s, |images|, end);
    AreFates(outs, images, s, first);
    AreFates(outs, images, end, second);
  }

  /** A second run over shared targets leaves the application as the first has left it, even if it updates again. */
  lemma SharedState(outs: seq<Outlook>, images: seq<ImageConfig<AppSpec>>, targets: seq<Target>,
                    wbc: Option<WriteBackConfig>, s: AppSpec, end: AppSpec, later: AppSpec)
    requires Sharing(outs, images, targets, wbc) && IsReady(s, wbc) && end == StateAt(outs, images, s, |images|)
    requires later == StateAt(outs, images, end, |images|)
    ensures later == end
  {
    var a, b := BothRuns(outs, images, targets, wbc, s, end);
    ParamsGrow(outs, images, targets, wbc, end, |images|, later);
    ParamsAgain(outs, images, targets, wbc, s, end, a, b, later);
  }

  // ---------------------------------------------------------------------------------------------
  // Running the loop twice
  // ---------------------------------------------------------------------------------------------

  predicate AllFound(outs: seq<Outlook>, images: seq<ImageConfig<AppSpec>>, targets: seq<Target>)
    requires |outs| == |images| == |targets|
  {
    forall i :: 0 <= i < |outs| && IsAble(outs[i], images[i]) ==> IsFound(outs, images, targets, i)
  }

  lemma SharedChanges(outs: seq<Outlook>, images: seq<ImageConfig<AppSpec>>, targets: seq<Target>,
                      wbc: Option<WriteBackConfig>, s: AppSpec, end: AppSpec, second: seq<Fate>)
    requires Sharing(outs, images, targets, wbc) && IsReady(s, wbc) && end == StateAt(outs, images, s, |images|)
    requires second == Fates(outs, images, end, |images|)
    ensures NoneUpdated(second, |images|) <==> AllFound(outs, images, targets)
  {
    AreFates(outs, images, end, second);
    forall i | 0 <= i < |outs|
      ensures second[i] == Updated <==> IsAble(outs[i], images[i]) && !IsFound(outs, images, targets, i)
    {
      SharedFate(outs, images, targets, wbc, s, end, i);
    }
  }

  /** Images that are able to be updated have one full name on each target. */
  predicate OneNamePerTarget(outs: seq<Outlook>, images: seq<ImageConfig<AppSpec>>, targets: seq<Target>)
    requires |outs| == |images| == |targets|
  {
    forall i, j :: 0 <= i < j < |outs| && IsAble(outs[i], images[i]) && IsAble(outs[j], images[j]) &&
                   SameTarget(targets[i], targets[j]) ==>
                     GetFullNameWithTag(outs[i].image) == GetFullNameWithTag(outs[j].image)
  }

  /** Whatever takes part on the target of an image that is able to be updated is shown by its full name. */
  predicate ShownByName(outs: seq<Outlook>, images: seq<ImageConfig<AppSpec>>, targets: seq<Target>, k: nat, i: nat)
    requires k < |outs| == |images| == |targets| && i < |outs|
  {
    TakesPart(outs[k], images[k]) && SameTarget(targets[k], targets[i]) ==>
      IsAble(outs[k], images[k]) && Shown(outs[k].image, targets[i]) == GetFullNameWithTag(outs[k].image)
  }

  predicate AllShownByName(outs: seq<Outlook>, images: seq<ImageConfig<AppSpec>>, targets: seq<Target>)
    requires |outs| == |images| == |targets|
  {
    forall k, i :: 0 <= k < |outs| && 0 <= i < |outs| && IsAble(outs[i], images[i]) ==>
                     ShownByName(outs, images, targets, k, i)
  }

  lemma NamesAreShown(outs: seq<Outlook>, images: seq<ImageConfig<AppSpec>>, targets: seq<Target>)
    requires |outs| == |images| == |targets| && forall i :: 0 <= i < |outs| ==> IsTidy(outs[i], targets[i])
    requires forall i, k :: 0 <= i < |outs| && 0 <= k < |outs| && IsAble(outs[i], images[i]) && outs[k].Keeping? ==>
                              !SameTarget(targets[k], targets[i])
    ensures AllShownByName(outs, images, targets)
  {
    forall k, i | 0 <= k < |outs| && 0 <= i < |outs| && IsAble(outs[i], images[i])
      ensures ShownByName(outs, images, targets, k, i)
    {
      if IsAble(outs[k], images[k]) {
        ShownInFull(outs[k].image, targets[k]);
      }
    }
  }

  /** Without kept images on their targets, all are found exactly if those on one target have the same full name. */
  lemma FoundIfSameName(outs: seq<Outlook>, images: seq<ImageConfig<AppSpec>>, targets: seq<Target>)
    requires |outs| == |images| == |targets| && AllShownByName(outs, images, targets)
    ensures AllFound(outs, images, targets) <==> OneNamePerTarget(outs, images, targets)
  {
    if AllFound(outs, images, targets) {
      forall i, j | 0 <= i < j < |outs| && IsAble(outs[i], images[i]) && IsAble(outs[j], images[j]) &&
                    SameTarget(targets[i], targets[j])
        ensures GetFullNameWithTag(outs[i].image) == GetFullNameWithTag(outs[j].image)
      {
        SameNameUpTo(outs, images, targets, i, j);
      }
    }
    if OneNamePerTarget(outs, images, targets) {
      forall i | 0 <= i < |outs| && IsAble(outs[i], images[i]) ensures IsFound(outs, images, targets, i) {
        FoundOnOneName(outs, images, targets, i, ShownBefore(outs, images, targets, i));
      }
    }
  }

  lemma FoundOnOneName(outs: seq<Outlook>, images: seq<ImageConfig<AppSpec>>, targets: seq<Target>, i: nat, k: nat)
    requires i < |outs| == |images| == |targets| && AllShownByName(outs, images, targets)
    requires OneNamePerTarget(outs, images, targets) && IsAble(outs[i], images[i])
    requires k == ShownBefore(outs, images, targets, i)
    ensures IsFound(outs, images, targets, i)
  {
    assert ShownByName(outs, images, targets, k, i);
  }

  lemma {:induction false} SameNameUpTo(outs: seq<Outlook>, images: seq<ImageConfig<AppSpec>>, targets: seq<Target>,
                                        i: nat, j: nat)
    requires i < j < |outs| == |images| == |targets| && AllFound(outs, images, targets)
    requires IsAble(outs[i], images[i]) && IsAble(outs[j], images[j]) && SameTarget(targets[i], targets[j])
    requires AllShownByName(outs, images, targets)
    ensures GetFullNameWithTag(outs[i].image) == GetFullNameWithTag(outs[j].image)
    decreases j
  {
    var k := LastOn(outs, images, targets, targets[j], j);
    LastOnIsLast(outs, images, targets, targets[j], j, i);
    SameNameAsLast(outs, images, targets, j, k);
    if k > i {
      SameNameUpTo(outs, images, targets, i, k);
    }
  }

  lemma SameNameAsLast(outs: seq<Outlook>, images: seq<ImageConfig<AppSpec>>, targets: seq<Target>, j: nat, k: nat)
    requires k < j < |outs| == |images| == |targets| && IsAble(outs[j], images[j])
    requires k == LastOn(outs, images, targets, targets[j], j) && IsFound(outs, images, targets, j)
    requires ShownByName(outs, images, targets, k, j)
    ensures IsAble(outs[k], images[k]) && GetFullNameWithTag(outs[k].image) == GetFullNameWithTag(outs[j].image)
  {
  }

  // ---------------------------------------------------------------------------------------------
  // Outlooks
  // ---------------------------------------------------------------------------------------------

  lemma OutlooksAreSound(lives: seq<Image>, images: seq<ImageConfig<AppSpec>>)
    ensures forall i :: 0 <= i < |images| ==> Sound(Outlooks(lives, images)[i])
    ensures (forall i :: 0 <= i < |images| ==> images[i].image.name != "") ==> AllSound(Outlooks(lives, images))
  {
    var outs := Outlooks(lives, images);
    forall i | 0 <= i < |outs|
      ensures Sound(outs[i]) && (images[i].image.name != "" && outs[i].Updating? ==> outs[i].image.name != "")
    {
      OutlookAt(lives, images, i);
    }
  }

  /** If the newest tag has a name, images are tidy on clear targets. */
  lemma NamedIsTidy(lives: seq<Image>, c: ImageConfig<AppSpec>, target: Target)
    requires IsClear(target) && (LatestTag(c).NewestTag? ==> LatestTag(c).tag.name != "")
    ensures IsTidy(OutlookOf(lives, c), target)
  {
    var o := OutlookOf(lives, c);
    if o.Keeping? {
      KeptTagName(lives, c);
      assert o.image.tag.value.digest != "" ==> '@' in GetTagWithDigest(o.image);
    }
  }

  /**
   A kept image is shown by its full name exactly if it is one parameter, the running tag has a name, or the digest
   strategy tracks one; otherwise the name is made up.
   */
  lemma KeptInFull(lives: seq<Image>, c: ImageConfig<AppSpec>, target: Target)
    requires OutlookOf(lives, c).Keeping?
    ensures LiveOf(lives, c).Some?
    ensures var img := OutlookOf(lives, c).image;
            Shown(img, target) == GetFullNameWithTag(img) <==>
            || target.spec != "" || TagOf(LiveOf(lives, c).value).name != ""
            || (c.digestStrategy && TagOf(c.image).name != "")
  {
    KeptTagName(lives, c);
    ShownInFull(OutlookOf(lives, c).image, target);
  }

  // ---------------------------------------------------------------------------------------------
  // The loop
  // ---------------------------------------------------------------------------------------------

  /**
   The loop run twice on a Helm application, with the same answers of the registry and nothing else changed.

   Over any targets, the second run has no changes exactly if all images that are able to be updated will be found
   set, by who has written their parameters last; it then sets no image to a new tag. If targets are shared as a
   whole or not at all, that is so exactly if each is preceded on its target by an image shown by the same name, and
   if none are shared, exactly if all that the first run updated can be read back; the second run then leaves the
   application as the first has left it.
   */
  method RunTwice(app: Application, wbc: Option<WriteBackConfig>, lives: seq<Image>,
                  images: seq<ImageConfig<AppSpec>>, targets: seq<Target>, dryRun: bool, commits: bool,
                  commitsAgain: bool)
    returns (first: Result, second: Result, trace: seq<Event>)
    requires ValidSpec(app.spec) && OnHelm(images, targets, wbc)
    modifies app
    ensures var outs, s := Outlooks(lives, images), old(app.spec);
            var fates, end := Fates(outs, images, s, |images|), StateAt(outs, images, s, |images|);
            && ValidSpec(app.spec) && app.spec == StateAt(outs, images, end, |images|)
            && (second.changes == [] <==>
                  (IsHelmApplication(s, wbc) ==>
                     AllWillBeFound(outs, images, targets, HaveWritten(fates), Was(s, wbc), IsLost(s, wbc))))
            && (Sharing(outs, images, targets, wbc) && IsReady(s, wbc) ==>
                  app.spec == end && (second.changes == [] <==> AllFound(outs, images, targets)))
            && (Independent(images, targets, wbc) && AllSound(outs) ==>
                  app.spec == end && (second.changes == [] <==> AllReadBack(outs, fates, targets, IsLost(s, wbc))))
    ensures second.changes == [] ==> forall k :: 0 <= k < |trace| ==> !(trace[k].SetImage? && trace[k].update)
  {
    var s: AppSpec := app.spec;
    var end: AppSpec, later: AppSpec;
    first, trace, end := UpdateApplication(lives, images, s, dryRun, commits);
    second, trace, later := UpdateApplication(lives, images, end, dryRun, commitsAgain);
    app.spec := later;
    ghost var outs := Outlooks(lives, images);
    ghost var fates, fatesAgain := Fates(outs, images, s, |images|), Fates(outs, images, end, |images|);
    OutlooksAreSound(lives, images);
    CountNone(fatesAgain, {Updated}, |images|);
    NothingFoundUnset(outs, images, targets, wbc, s, end, fates, fatesAgain);
    TwiceShared(outs, images, targets, wbc, s, end, later, fatesAgain);
    TwiceApart(outs, images, targets, wbc, s, end, later, fates, fatesAgain);
    if second.changes == [] {
      NoUpdateInTrace(outs, images, targets, wbc, end, fatesAgain, trace);
    }
  }

  lemma TwiceShared(outs: seq<Outlook>, images: seq<ImageConfig<AppSpec>>, targets: seq<Target>,
                    wbc: Option<WriteBackConfig>, s: AppSpec, end: AppSpec, later: AppSpec, second: seq<Fate>)
    requires |outs| == |images| == |targets| && second == Fates(outs, images, end, |images|)
    requires end == StateAt(outs, images, s, |images|) && later == StateAt(outs, images, end, |images|)
    ensures Sharing(outs, images, targets, wbc) && IsReady(s, wbc) ==>
              later == end && (NoneUpdated(second, |images|) <==> AllFound(outs, images, targets))
  {
    if Sharing(outs, images, targets, wbc) && IsReady(s, wbc) {
      SharedChanges(outs, images, targets, wbc, s, end, second);
      SharedState(outs, images, targets, wbc, s, end, later);
    }
  }

  lemma TwiceApart(outs: seq<Outlook>, images: seq<ImageConfig<AppSpec>>, targets: seq<Target>,
                   wbc: Option<WriteBackConfig>, s: AppSpec, end: AppSpec, later: AppSpec, first: seq<Fate>,
                   second: seq<Fate>)
    requires |outs| == |images| == |targets|
    requires end == StateAt(outs, images, s, |images|) && later == StateAt(outs, images, end, |images|)
    requires first == Fates(outs, images, s, |images|) && second == Fates(outs, images, end, |images|)
    ensures Independent(images, targets, wbc) && AllSound(outs) ==>
              later == end && (Count(second, {Updated}, |images|) == 0 <==>
                                 AllReadBack(outs, first, targets, IsLost(s, wbc)))
  {
    if Independent(images, targets, wbc) && AllSound(outs) {
      SecondState(outs, images, targets, wbc, s, |images|, end);
      NothingToUpdate(outs, images, targets, wbc, s, end, first, second);
    }
  }

  // ---------------------------------------------------------------------------------------------
  // Two images on the default parameters
  // ---------------------------------------------------------------------------------------------

  /** Two images of different full names on one target are both updated again. */
  lemma FoughtOver(outs: seq<Outlook>, images: seq<ImageConfig<AppSpec>>, targets: seq<Target>,
                   wbc: Option<WriteBackConfig>, s: AppSpec, end: AppSpec)
    requires Sharing(outs, images, targets, wbc) && IsReady(s, wbc) && end == StateAt(outs, images, s, |images|)
    requires |images| == 2 && SameTarget(targets[0], targets[1])
    requires IsAble(outs[0], images[0]) && IsAble(outs[1], images[1])
    requires GetFullNameWithTag(outs[0].image) != GetFullNameWithTag(outs[1].image)
    ensures Fates(outs, images, end, 2) == [Updated, Updated]
  {
    ShownInFull(outs[0].image, targets[0]);
    ShownInFull(outs[1].image, targets[1]);
    SharedFate(outs, images, targets, wbc, s, end, 0);
    SharedFate(outs, images, targets, wbc, s, end, 1);
    AreFates(outs, images, end, Fates(outs, images, end, 2));
  }

  const DEFAULTS := Target("", "", "")
  const NGINX := Image("", "", "nginx", Some(Tag("1", "")))
  const REDIS := Image("", "", "redis", Some(Tag("6", "")))

  function OnDefaults(img: Image, newest: Tag): ImageConfig<AppSpec> {
    ImageConfig(img, [], false, true, false, true, true, Success, true, true, true, NewestTag(newest), NotEnabled,
                Reads(None, DEFAULTS), Writes(None, DEFAULTS))
  }

  /** An image whose first live one runs an older tag. */
  lemma OlderOutlook(lives: seq<Image>, k: nat, newest: Tag)
    requires k < |lives| && lives[k].tag.Some? && newest.digest == lives[k].tag.value.digest == ""
    requires lives[k].tag.value.name != newest.name
    requires forall j :: 0 <= j < k ==> RepositoryOf(lives[j]) != RepositoryOf(lives[k])
    ensures OutlookOf(lives, OnDefaults(lives[k], newest)) ==
            Updating(WithTag(lives[k], newest), lives[k].tag.value, newest)
  {
    var c, repositories := OnDefaults(lives[k], newest), Map(lives, RepositoryOf);
    assert repositories[k] == RepositoryOf(lives[k]);
    assert [] + [RepositoryOf(lives[k])] == [RepositoryOf(lives[k])];
    FindLiveOne(repositories, RepositoryOf(lives[k]));
    assert IndexFrom(repositories, RepositoryOf(lives[k]), 0) == k;
  }

  lemma DefaultOutlooks(outs: seq<Outlook>)
    requires outs == Outlooks([NGINX, REDIS], [OnDefaults(NGINX, Tag("2", "")), OnDefaults(REDIS, Tag("7", ""))])
    ensures outs[0] == Updating(WithTag(NGINX, Tag("2", "")), Tag("1", ""), Tag("2", ""))
    ensures outs[1] == Updating(WithTag(REDIS, Tag("7", "")), Tag("6", ""), Tag("7", ""))
    ensures GetFullNameWithTag(outs[0].image) != GetFullNameWithTag(outs[1].image)
  {
    var images := [OnDefaults(NGINX, Tag("2", "")), OnDefaults(REDIS, Tag("7", ""))];
    assert NGINX.name[0] == 'n' && REDIS.name[0] == 'r';
    OutlookAt([NGINX, REDIS], images, 0);
    OutlookAt([NGINX, REDIS], images, 1);
    OlderOutlook([NGINX, REDIS], 0, Tag("2", ""));
    OlderOutlook([NGINX, REDIS], 1, Tag("7", ""));
    assert GetFullNameWithTag(outs[0].image)[0] == 'n' && GetFullNameWithTag(outs[1].image)[0] == 'r';
  }

  lemma DefaultsAreShared(outs: seq<Outlook>, images: seq<ImageConfig<AppSpec>>)
    requires |outs| == |images| == 2
    requires forall i :: 0 <= i < 2 ==>
                           IsOnHelm(images[i], None, DEFAULTS) && outs[i].Updating? && HasTagName(outs[i].image)
    ensures Sharing(outs, images, [DEFAULTS, DEFAULTS], None)
  {
    assert NameParam(DEFAULTS)[6] == 'n' && TagParam(DEFAULTS)[6] == 't';
  }

  /** In any Helm application whose two images run and are left on the default parameters, a second run updates both. */
  lemma DefaultsAreFoughtOver(s: AppSpec, images: seq<ImageConfig<AppSpec>>, outs: seq<Outlook>, end: AppSpec)
    requires images == [OnDefaults(NGINX, Tag("2", "")), OnDefaults(REDIS, Tag("7", ""))]
    requires IsReady(s, None) && outs == Outlooks([NGINX, REDIS], images) && end == StateAt(outs, images, s, 2)
    ensures Fates(outs, images, end, 2) == [Updated, Updated]
  {
    DefaultOutlooks(outs);
    DefaultsAreShared(outs, images);
    FoughtOver(outs, images, [DEFAULTS, DEFAULTS], None, s, end);
  }
}

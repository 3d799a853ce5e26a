/**
 What a run of the image loop on a Helm application leaves of each parameter (pkg/argocd/update.go,
 pkg/argocd/argocd.go): the value that was given to it last, at the place where it was.
 */
module HelmWrites {
  import opened Options
  import opened ImageRef
  import opened HelmParams
  import opened UpdateLoop
  import opened HelmTargets
  import opened HelmRuns

  // ---------------------------------------------------------------------------------------------
  // Values
  // ---------------------------------------------------------------------------------------------

  function ValueOf(params: seq<Param>, name: string): Option<string> {
    var p := GetHelmParam(params, name);
    if p.Some? then Some(p.value.value) else None
  }

  function ValueIn(s: AppSpec, wbc: Option<WriteBackConfig>, name: string): Option<string> {
    ValueOf(ParamsAt(s, GetApplicationSource(s, wbc)), name)
  }

  /** The image of a target, put together from the values of its parameters. */
  function ImageFrom(value: string -> Option<string>, target: Target): string {
    if target.spec != "" then
      if value(target.spec).Some? then value(target.spec).value else ""
    else
      var name, tag := value(NameParam(target)), value(TagParam(target));
      if name.None? || tag.None? then "" else name.value + ":" + tag.value
  }

  /** The value an image gives to a parameter when it is written. */
  function Given(o: Outlook, target: Target, name: string): Option<string> {
    if o.Nothing? then None else ValueOf(ImageParams(o.image, target), name)
  }

  /** The value a parameter has once those of the first `n` images that write have written. */
  function LastGiven(outs: seq<Outlook>, targets: seq<Target>, writes: seq<bool>, n: nat, name: string,
                     was: Option<string>): Option<string>
    requires n <= |outs| == |targets| == |writes|
  {
    if n == 0 then was
    else if writes[n - 1] && Given(outs[n - 1], targets[n - 1], name).Some? then
      Given(outs[n - 1], targets[n - 1], name)
    else LastGiven(outs, targets, writes, n - 1, name, was)
  }

  function HaveWritten(fates: seq<Fate>): (r: seq<bool>)
    ensures |r| == |fates| && forall i :: 0 <= i < |r| ==> (r[i] <==> fates[i] in {Updated, Kept})
  {
    seq(|fates|, i requires 0 <= i < |fates| => fates[i] in {Updated, Kept})
  }

  /** Who writes in a run that starts in `s`. */
  ghost predicate AreWriters(outs: seq<Outlook>, images: seq<ImageConfig<AppSpec>>, s: AppSpec, writes: seq<bool>) {
    && |outs| == |images| == |writes|
    && forall i :: 0 <= i < |images| ==> (writes[i] <==> FateAt(outs, images, s, i) in {Updated, Kept})
  }

  function AreKept(outs: seq<Outlook>): (r: seq<bool>)
    ensures |r| == |outs| && forall i :: 0 <= i < |r| ==> (r[i] <==> outs[i].Keeping?)
  {
    seq(|outs|, i requires 0 <= i < |outs| => outs[i].Keeping?)
  }

  /** An image gives its parameters their values, and no others. */
  lemma ValueAfter(o: Outlook, c: ImageConfig<AppSpec>, s: AppSpec, s': AppSpec, wbc: Option<WriteBackConfig>,
                   target: Target, name: string)
    requires IsOnHelm(c, wbc, target) && !IsLost(s, wbc) && s' == After(o, c, s)
    ensures ValueIn(s', wbc, name) ==
            if FateOf(o, c, s) in {Updated, Kept} && Given(o, target, name).Some? then Given(o, target, name)
            else ValueIn(s, wbc, name)
  {
    AfterImage(o, c, s, wbc, target);
    if !o.Nothing? && FateOf(o, c, s) in {Updated, Kept} {
      var src, merge := ParamsAt(s, GetApplicationSource(s, wbc)), ImageParams(o.image, target);
      SameSourceSelected(s, wbc, Merged(src, merge));
      MergeOverrides(src, merge, name);
    }
  }

  /** The value of a parameter after an image, from the one before. */
  function ValueNext(o: Outlook, target: Target, writes: bool, name: string, before: Option<string>): Option<string> {
    if writes && Given(o, target, name).Some? then Given(o, target, name) else before
  }

  lemma {:induction false} ValuesAre(outs: seq<Outlook>, targets: seq<Target>, writes: seq<bool>, name: string,
                                     values: seq<Option<string>>, n: nat)
    requires n <= |outs| == |targets| == |writes| && n < |values|
    requires forall k :: 0 <= k < n ==> values[k + 1] == ValueNext(outs[k], targets[k], writes[k], name, values[k])
    ensures values[n] == LastGiven(outs, targets, writes, n, name, values[0])
  {
    if n > 0 {
      ValuesAre(outs, targets, writes, name, values, n - 1);
      assert values[n - 1 + 1] == ValueNext(outs[n - 1], targets[n - 1], writes[n - 1], name, values[n - 1]);
    }
  }

  lemma ValueStep(outs: seq<Outlook>, images: seq<ImageConfig<AppSpec>>, targets: seq<Target>,
                  wbc: Option<WriteBackConfig>, s: AppSpec, name: string, writes: seq<bool>, k: nat, before: AppSpec,
                  now: AppSpec)
    requires OnHelm(images, targets, wbc) && AreWriters(outs, images, s, writes) && k < |images| && !IsLost(s, wbc)
    requires before == StateAt(outs, images, s, k) && now == StateAt(outs, images, s, k + 1)
    ensures ValueIn(now, wbc, name) ==
            ValueNext(outs[k], targets[k], writes[k], name, ValueIn(before, wbc, name))
  {
    RunSame(outs, images, targets, wbc, s, k, before);
    ValueAfter(outs[k], images[k], before, now, wbc, targets[k], name);
    assert writes[k] <==> FateAt(outs, images, s, k) in {Updated, Kept};
  }

  /** After a run every parameter has the value that was given to it last. */
  lemma ValueAfterRun(outs: seq<Outlook>, images: seq<ImageConfig<AppSpec>>, targets: seq<Target>,
                      wbc: Option<WriteBackConfig>, s: AppSpec, n: nat, name: string, writes: seq<bool>)
    requires OnHelm(images, targets, wbc) && AreWriters(outs, images, s, writes) && n <= |images| && !IsLost(s, wbc)
    ensures ValueIn(StateAt(outs, images, s, n), wbc, name) ==
            LastGiven(outs, targets, writes, n, name, ValueIn(s, wbc, name))
  {
    var values := ValuesOf(outs, images, wbc, s, name);
    forall k | 0 <= k < |images|
      ensures values[k + 1] == ValueNext(outs[k], targets[k], writes[k], name, values[k])
    {
      ValueStep(outs, images, targets, wbc, s, name, writes, k, StateAt(outs, images, s, k),
                StateAt(outs, images, s, k + 1));
    }
    ValuesAre(outs, targets, writes, name, values, n);
  }

  /** The value of a parameter before each image, and at the end. */
  function ValuesOf(outs: seq<Outlook>, images: seq<ImageConfig<AppSpec>>, wbc: Option<WriteBackConfig>, s: AppSpec,
                    name: string): (r: seq<Option<string>>)
    requires |outs| == |images|
    ensures |r| == |images| + 1
    ensures forall k :: 0 <= k <= |images| ==> r[k] == ValueIn(StateAt(outs, images, s, k), wbc, name)
  {
    seq(|images| + 1, k requires 0 <= k <= |images| => ValueIn(StateAt(outs, images, s, k), wbc, name))
  }

  lemma {:induction false} LastGivenSame(outs: seq<Outlook>, targets: seq<Target>, a: seq<bool>, b: seq<bool>, n: nat,
                                         name: string, was: Option<string>)
    requires n <= |outs| == |targets| == |a| == |b| && forall i :: 0 <= i < n && !outs[i].Nothing? ==> a[i] == b[i]
    ensures LastGiven(outs, targets, a, n, name, was) == LastGiven(outs, targets, b, n, name, was)
  {
    if n > 0 {
      LastGivenSame(outs, targets, a, b, n - 1, name, was);
    }
  }

  lemma AreFates(outs: seq<Outlook>, images: seq<ImageConfig<AppSpec>>, s: AppSpec, fates: seq<Fate>)
    requires |outs| == |images| && fates == Fates(outs, images, s, |images|)
    ensures forall i :: 0 <= i < |images| ==> fates[i] == FateAt(outs, images, s, i)
  {
    forall i | 0 <= i < |images| ensures fates[i] == FateAt(outs, images, s, i) {
      FatesAt(outs, images, s, |images|, i);
    }
  }

  // ---------------------------------------------------------------------------------------------
  // Lists
  // ---------------------------------------------------------------------------------------------

  function Params(s: AppSpec, wbc: Option<WriteBackConfig>): seq<Param> {
    ParamsAt(s, GetApplicationSource(s, wbc))
  }

  /** What an image makes of the parameters: they are merged with its own, or stay. */
  lemma ParamsAfter(o: Outlook, c: ImageConfig<AppSpec>, s: AppSpec, s': AppSpec, wbc: Option<WriteBackConfig>,
                    target: Target)
    requires IsOnHelm(c, wbc, target) && !IsLost(s, wbc) && s' == After(o, c, s)
    ensures var wrote := !o.Nothing? && FateOf(o, c, s) in {Updated, Kept};
            Params(s', wbc) == if wrote then Merged(Params(s, wbc), ImageParams(o.image, target)) else Params(s, wbc)
  {
    AfterImage(o, c, s, wbc, target);
    if !o.Nothing? && FateOf(o, c, s) in {Updated, Kept} {
      SameSourceSelected(s, wbc, Merged(Params(s, wbc), ImageParams(o.image, target)));
    }
  }

  /** Nothing but the parameters changes, and they only if there are some then. */
  lemma OnlyParamsAfter(o: Outlook, c: ImageConfig<AppSpec>, s: AppSpec, s': AppSpec, wbc: Option<WriteBackConfig>,
                        target: Target)
    requires IsOnHelm(c, wbc, target) && !IsLost(s, wbc) && s' == After(o, c, s)
    ensures s' == s || (s' == WithParams(s, GetApplicationSource(s, wbc), Params(s', wbc)) && Params(s', wbc) != [])
    ensures GetApplicationSource(s', wbc) == GetApplicationSource(s, wbc)
  {
    AfterImage(o, c, s, wbc, target);
    if !o.Nothing? && FateOf(o, c, s) in {Updated, Kept} {
      var src, merge := Params(s, wbc), ImageParams(o.image, target);
      SameSourceSelected(s, wbc, Merged(src, merge));
      MergeOverrides(src, merge, merge[0].name);
    }
  }

  lemma ImageParamsAreDistinct(img: Image, target: Target)
    requires IsClear(target)
    ensures DistinctNames(ImageParams(img, target)) && forall p :: p in ImageParams(img, target) ==> p.forceString
  {
  }

  /** Missing parameters are of names that do not occur. */
  lemma {:induction false} MissingIsNew(src: seq<Param>, merge: seq<Param>, k: nat)
    requires k < |Missing(src, merge)|
    ensures !Names(src, Missing(src, merge)[k].name)
    decreases |merge|
  {
    var before := Missing(src, merge[..|merge| - 1]);
    if k < |before| {
      MissingIsNew(src, merge[..|merge| - 1], k);
    }
  }

  /**
   What has become of the place `k` of a list of parameters that was `was`, if `given` is the last value of its name.
   */
  predicate PlaceIs(was: seq<Param>, now: seq<Param>, k: nat, given: Option<string>)
    requires k < |now|
  {
    && (k < |was| ==> now[k].name == was[k].name) && (k >= |was| ==> !Names(was, now[k].name))
    && (if given.Some? then now[k] == Param(now[k].name, given.value, true) else k < |was| && now[k] == was[k])
  }

  /** Merging leaves every place its name, and adds only names that do not occur. */
  lemma MergedPlace(src: seq<Param>, merge: seq<Param>, k: nat)
    requires k < |Merged(src, merge)| && DistinctNames(merge) && forall p :: p in merge ==> p.forceString
    ensures PlaceIs(src, Merged(src, merge), k, ValueOf(merge, Merged(src, merge)[k].name))
  {
    var p := Merged(src, merge)[k];
    if k >= |src| {
      assert p == Missing(src, merge)[k - |src|];
      MissingIsNew(src, merge, k - |src|);
      MissingIsMerged(src, merge);
      GetDistinct(merge, p);
    } else {
      assert p == Replacement(src[k], merge);
    }
  }

  lemma NamesStay(was: seq<Param>, now: seq<Param>, name: string)
    requires |was| <= |now| && forall i :: 0 <= i < |was| ==> now[i].name == was[i].name
    ensures Names(was, name) ==> Names(now, name)
  {
    if Names(was, name) {
      var p :| p in was && p.name == name;
      var i :| 0 <= i < |was| && was[i] == p;
      assert now[i] in now;
    }
  }

  /** Two runs in a row. */
  lemma PlaceLater(was: seq<Param>, mid: seq<Param>, now: seq<Param>, k: nat, given: Option<string>,
                   more: Option<string>)
    requires k < |now| && |was| <= |mid| && forall i :: 0 <= i < |was| ==> mid[i].name == was[i].name
    requires k < |mid| ==> PlaceIs(was, mid, k, given)
    requires PlaceIs(mid, now, k, more)
    ensures PlaceIs(was, now, k, if more.Some? then more else given)
  {
    NamesStay(was, mid, now[k].name);
  }

  lemma {:induction false} ParamsGrow(outs: seq<Outlook>, images: seq<ImageConfig<AppSpec>>, targets: seq<Target>,
                                      wbc: Option<WriteBackConfig>, s: AppSpec, n: nat, s': AppSpec)
    requires OnHelm(images, targets, wbc) && n <= |images| == |outs| && !IsLost(s, wbc)
    requires s' == StateAt(outs, images, s, n)
    ensures |Params(s, wbc)| <= |Params(s', wbc)|
    ensures forall k :: 0 <= k < |Params(s, wbc)| ==> Params(s', wbc)[k].name == Params(s, wbc)[k].name
    ensures s' == s || (s' == WithParams(s, GetApplicationSource(s, wbc), Params(s', wbc)) && Params(s', wbc) != [])
    ensures GetApplicationSource(s', wbc) == GetApplicationSource(s, wbc)
  {
    if n > 0 {
      var before: AppSpec := StateAt(outs, images, s, n - 1);
      ParamsGrow(outs, images, targets, wbc, s, n - 1, before);
      RunSame(outs, images, targets, wbc, s, n - 1, before);
      ParamsAfter(outs[n - 1], images[n - 1], before, s', wbc, targets[n - 1]);
      OnlyParamsAfter(outs[n - 1], images[n - 1], before, s', wbc, targets[n - 1]);
    }
  }

  /** After a run every place holds the value that was given last to its name. */
  lemma {:induction false} PlaceAfterRun(outs: seq<Outlook>, images: seq<ImageConfig<AppSpec>>, targets: seq<Target>,
                                         wbc: Option<WriteBackConfig>, s: AppSpec, n: nat, s': AppSpec,
                                         writes: seq<bool>, k: nat)
    requires OnHelm(images, targets, wbc) && AreWriters(outs, images, s, writes) && n <= |images| && !IsLost(s, wbc)
    requires forall i :: 0 <= i < |targets| ==> IsClear(targets[i])
    requires s' == StateAt(outs, images, s, n) && k < |Params(s', wbc)|
    ensures PlaceIs(Params(s, wbc), Params(s', wbc), k,
                    LastGiven(outs, targets, writes, n, Params(s', wbc)[k].name, None))
  {
    if n > 0 {
      var before: AppSpec := StateAt(outs, images, s, n - 1);
      var o, target, name := outs[n - 1], targets[n - 1], Params(s', wbc)[k].name;
      RunSame(outs, images, targets, wbc, s, n - 1, before);
      ParamsGrow(outs, images, targets, wbc, s, n - 1, before);
      if k < |Params(before, wbc)| {
        PlaceAfterRun(outs, images, targets, wbc, s, n - 1, before, writes, k);
      }
      PlaceAfter(o, images[n - 1], before, s', wbc, target, k);
      PlaceLater(Params(s, wbc), Params(before, wbc), Params(s', wbc), k,
                 LastGiven(outs, targets, writes, n - 1, name, None), if writes[n - 1] then Given(o, target,
                           name) else None);
    }
  }

  lemma PlaceAfter(o: Outlook, c: ImageConfig<AppSpec>, s: AppSpec, s': AppSpec, wbc: Option<WriteBackConfig>,
                   target: Target, k: nat)
    requires IsOnHelm(c, wbc, target) && IsClear(target) && !IsLost(s, wbc) && s' == After(o, c, s)
    requires k < |Params(s', wbc)|
    ensures PlaceIs(Params(s, wbc), Params(s', wbc), k,
                    if FateOf(o, c, s) in {Updated, Kept} then Given(o, target, Params(s', wbc)[k].name) else None)
  {
    ParamsAfter(o, c, s, s', wbc, target);
    if !o.Nothing? && FateOf(o, c, s) in {Updated, Kept} {
      ImageParamsAreDistinct(o.image, target);
      MergedPlace(Params(s, wbc), ImageParams(o.image, target), k);
    }
  }
}

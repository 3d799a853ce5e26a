/**
 Helm parameters of an Argo CD application (pkg/argocd/argocd.go): merging parameter lists, selecting
 the source to write to, writing an image there and reading it back.

 `Spec` is the part of an application that these operations look at. Its Helm blocks are pointers in
 the program, none shared between two sources; a hydrated application hands out a copy of its dry
 source that shares the Helm block only if there is one.
 */
module HelmParams {
  import opened Options
  import opened ImageRef
  import opened Sequences

  datatype Param = Param(name: string, value: string, forceString: bool)

  // ---------------------------------------------------------------------------------------------
  // Parameter lists
  // ---------------------------------------------------------------------------------------------

  /** getHelmParam: the first parameter of that name. */
  function GetHelmParam(params: seq<Param>, name: string): (r: Option<Param>)
    ensures r.Some? ==> r.value in params && r.value.name == name
    ensures r.None? <==> forall p :: p in params ==> p.name != name
  {
    if params == [] then None
    else if params[0].name == name then Some(params[0])
    else GetHelmParam(params[1..], name)
  }

  predicate Names(params: seq<Param>, name: string) {
    exists p :: p in params && p.name == name
  }

  /** A parameter, or the one that replaces it. */
  function Replacement(p: Param, merge: seq<Param>): (r: Param)
    ensures r.name == p.name
    ensures GetHelmParam(merge, p.name).None? ==> r == p
  {
    var m := GetHelmParam(merge, p.name);
    if m.Some? then m.value else p
  }

  function Replaced(src: seq<Param>, merge: seq<Param>): (r: seq<Param>)
    ensures |r| == |src|
    ensures forall i :: 0 <= i < |src| ==> r[i] == Replacement(src[i], merge)
  {
    seq(|src|, i requires 0 <= i < |src| => Replacement(src[i], merge))
  }

  /** The parameters of `merge` whose name does not occur in `src`. */
  function Missing(src: seq<Param>, merge: seq<Param>): seq<Param> {
    if merge == [] then []
    else
      var last := merge[|merge| - 1];
      Missing(src, merge[..|merge| - 1]) + if Names(src, last.name) then [] else [last]
  }

  function Merged(src: seq<Param>, merge: seq<Param>): seq<Param> {
    Replaced(src, merge) + Missing(src, merge)
  }

  /** The inner loop of mergeHelmParams. */
  method FindParam(merge: seq<Param>, name: string) returns (r: Option<Param>)
    ensures r == GetHelmParam(merge, name)
  {
    assert merge[0..] == merge;
    for j := 0 to |merge|
      invariant GetHelmParam(merge, name) == GetHelmParam(merge[j..], name)
    {
      assert merge[j..][1..] == merge[j + 1..];
      if merge[j].name == name {
        return Some(merge[j]);
      }
    }
    return None;
  }

  /** The first loop of mergeHelmParams. */
  method Replace(src: seq<Param>, merge: seq<Param>) returns (retParams: seq<Param>, merged: set<string>)
    ensures retParams == Replaced(src, merge)
    ensures forall n :: n in merged <==> Names(merge, n) && Names(src, n)
  {
    retParams, merged := [], {};
    for i := 0 to |src|
      invariant retParams == Replaced(src[..i], merge)
      invariant forall n :: n in merged <==> Names(merge, n) && Names(src[..i], n)
    {
      assert src[..i + 1] == src[..i] + [src[i]];
      var found := FindParam(merge, src[i].name);
      if found.Some? {
        retParams := retParams + [found.value];
        merged := merged + {found.value.name};
      } else {
        retParams := retParams + [src[i]];
      }
      AddMerged(src, i, merge);
    }
    assert src[..|src|] == src;
  }

  lemma AddMerged(src: seq<Param>, i: nat, merge: seq<Param>)
    requires i < |src|
    ensures Replaced(src[..i + 1], merge) == Replaced(src[..i], merge) + [Replacement(src[i], merge)]
    ensures forall n :: Names(src[..i + 1], n) <==> n == src[i].name || Names(src[..i], n)
  {
    assert src[..i + 1] == src[..i] + [src[i]];
    assert forall p :: p in src[..i + 1] <==> p == src[i] || p in src[..i];
    forall n ensures Names(src[..i + 1], n) <==> n == src[i].name || Names(src[..i], n) {
      if n == src[i].name {
        assert src[i] in src[..i + 1];
      } else if Names(src[..i], n) {
        var p :| p in src[..i] && p.name == n;
        assert p in src[..i + 1];
      }
    }
  }

  method MergeHelmParams(src: seq<Param>, merge: seq<Param>) returns (retParams: seq<Param>)
    ensures retParams == Merged(src, merge)
  {
    var merged;
    retParams, merged := Replace(src, merge);
    ghost var replaced := retParams;
    for i := 0 to |merge|
      invariant retParams == replaced + Missing(src, merge[..i])
    {
      assert merge[..i + 1][..i] == merge[..i];
      assert Names(merge, merge[i].name);
      if merge[i].name !in merged {
        retParams := retParams + [merge[i]];
      }
    }
    assert merge[..|merge|] == merge;
  }

  lemma {:induction false} GetOfConcat(a: seq<Param>, b: seq<Param>)
    ensures forall name :: GetHelmParam(a + b, name) ==
                           if GetHelmParam(a, name).Some? then GetHelmParam(a, name) else GetHelmParam(b, name)
    decreases |a|
  {
    if a == [] {
      assert a + b == b;
    } else {
      assert (a + b)[1..] == a[1..] + b;
      GetOfConcat(a[1..], b);
    }
  }

  lemma {:induction false} GetOfReplaced(src: seq<Param>, merge: seq<Param>, name: string)
    ensures GetHelmParam(Replaced(src, merge), name) ==
            if GetHelmParam(src, name).None? then None
            else if GetHelmParam(merge, name).Some? then GetHelmParam(merge, name) else GetHelmParam(src, name)
    decreases |src|
  {
    if src != [] {
      assert Replaced(src, merge)[1..] == Replaced(src[1..], merge);
      GetOfReplaced(src[1..], merge, name);
    }
  }

  lemma {:induction false} GetOfMissing(src: seq<Param>, merge: seq<Param>, name: string)
    ensures GetHelmParam(Missing(src, merge), name) == if Names(src, name) then None else GetHelmParam(merge, name)
    decreases |merge|
  {
    if merge != [] {
      var init, last := merge[..|merge| - 1], merge[|merge| - 1];
      GetOfMissing(src, init, name);
      assert merge == init + [last] && [last][1..] == [];
      GetOfConcat(init, [last]);
      GetOfConcat(Missing(src, init), if Names(src, last.name) then [] else [last]);
    }
  }

  /** Merging overrides one lookup by another and leaves every other parameter where it was. */
  lemma MergeOverrides(src: seq<Param>, merge: seq<Param>, name: string)
    ensures GetHelmParam(Merged(src, merge), name) ==
            if GetHelmParam(merge, name).Some? then GetHelmParam(merge, name) else GetHelmParam(src, name)
    ensures forall i :: 0 <= i < |src| && GetHelmParam(merge, src[i].name).None? ==> Merged(src, merge)[i] == src[i]
    ensures forall i :: |src| <= i < |Merged(src, merge)| ==> Merged(src, merge)[i] in merge
  {
    GetOfConcat(Replaced(src, merge), Missing(src, merge));
    GetOfReplaced(src, merge, name);
    GetOfMissing(src, merge, name);
    MissingIsMerged(src, merge);
  }

  lemma {:induction false} MissingIsMerged(src: seq<Param>, merge: seq<Param>)
    ensures forall p :: p in Missing(src, merge) ==> p in merge
    ensures forall i :: 0 <= i < |Missing(src, merge)| ==> Missing(src, merge)[i] in merge
    decreases |merge|
  {
    if merge != [] {
      MissingIsMerged(src, merge[..|merge| - 1]);
    }
  }

  predicate DistinctNames(params: seq<Param>) {
    forall i, j :: 0 <= i < j < |params| ==> params[i].name != params[j].name
  }

  /** Merging the same parameters again changes nothing. */
  lemma MergeIsIdempotent(src: seq<Param>, merge: seq<Param>)
    requires DistinctNames(merge)
    ensures Merged(Merged(src, merge), merge) == Merged(src, merge)
  {
    var once := Merged(src, merge);
    forall p | p in merge ensures Names(once, p.name) && GetHelmParam(merge, p.name) == Some(p) {
      GetDistinct(merge, p);
      MergeOverrides(src, merge, p.name);
    }
    NothingMissing(once, merge);
    forall i | 0 <= i < |once| ensures Replacement(once[i], merge) == once[i] {
      if i < |src| {
        var m := GetHelmParam(merge, src[i].name);
        assert once[i] == Replacement(src[i], merge);
      } else {
        MergeOverrides(src, merge, "");
        assert once[i] in merge;
      }
    }
    assert Replaced(once, merge) == once;
  }

  lemma {:induction false} GetDistinct(params: seq<Param>, p: Param)
    requires DistinctNames(params) && p in params
    ensures GetHelmParam(params, p.name) == Some(p)
    decreases |params|
  {
    if params[0] != p {
      var i :| 0 <= i < |params| && params[i] == p;
      assert params[1..][i - 1] == p;
      GetDistinct(params[1..], p);
    }
  }

  lemma {:induction false} NothingMissing(src: seq<Param>, merge: seq<Param>)
    requires forall p :: p in merge ==> Names(src, p.name)
    ensures Missing(src, merge) == []
    decreases |merge|
  {
    if merge != [] {
      NothingMissing(src, merge[..|merge| - 1]);
    }
  }

  // ---------------------------------------------------------------------------------------------
  // Applications and their sources
  // ---------------------------------------------------------------------------------------------

  datatype SourceType = HelmSource | KustomizeSource | PluginSource | DirectorySource

  /** A source: its Helm parameters if it has a Helm block, and whether it has the other blocks. */
  datatype Source = Source(helm: Option<seq<Param>>, kustomize: bool, plugin: bool)

  /** What is looked at of a write-back configuration: the method, and what its target makes of the source type. */
  datatype WriteBackConfig = WriteBackConfig(git: bool, hasKustomizeBase: bool, hasHelmValuesTarget: bool)

  /** `sources` is only used when it is what Argo CD calls multiple sources; it is then not empty. */
  datatype Spec = Spec(multiple: bool, sources: seq<Source>, hydrator: Option<Source>, source: Source,
                       sourceType: SourceType, sourceTypes: seq<SourceType>)

  predicate ValidSpec(spec: Spec) {
    spec.multiple ==> spec.sources != []
  }

  /** The first status of a kind the updater can write. */
  function FirstKnownType(types: seq<SourceType>): SourceType {
    if types == [] then DirectorySource
    else if !types[0].DirectorySource? then types[0]
    else FirstKnownType(types[1..])
  }

  function GetApplicationSourceType(spec: Spec, wbc: Option<WriteBackConfig>): SourceType {
    if wbc.Some? && wbc.value.hasKustomizeBase then KustomizeSource
    else if wbc.Some? && wbc.value.hasHelmValuesTarget then HelmSource
    else if spec.multiple then FirstKnownType(spec.sourceTypes)
    else if spec.hydrator.Some? && spec.hydrator.value.helm.Some? then HelmSource
    else if spec.hydrator.Some? && spec.hydrator.value.kustomize then KustomizeSource
    else if spec.hydrator.Some? && spec.hydrator.value.plugin then PluginSource
    else spec.sourceType
  }

  /** getApplicationType is the Helm type. */
  predicate IsHelmApplication(spec: Spec, wbc: Option<WriteBackConfig>) {
    var t := GetApplicationSourceType(spec, wbc);
    t.HelmSource? || (t.PluginSource? && wbc.Some? && wbc.value.git)
  }

  /** The source has the block its type calls for. */
  predicate HasBlock(s: Source, t: SourceType) {
    match t
    case HelmSource => s.helm.Some?
    case KustomizeSource => s.kustomize
    case PluginSource => s.plugin
    case DirectorySource => false
  }

  predicate HasAnyBlock(s: Source) {
    s.helm.Some? || s.kustomize || s.plugin
  }

  /** The index of the first source with a property, or the number of sources. */
  function FirstSource(sources: seq<Source>, p: Source -> bool, i: nat := 0): (r: nat)
    requires i <= |sources|
    ensures i <= r <= |sources|
    ensures r < |sources| ==> p(sources[r])
    ensures forall j :: i <= j < r ==> !p(sources[j])
    decreases |sources| - i
  {
    if i == |sources| || p(sources[i]) then i else FirstSource(sources, p, i + 1)
  }

  /** Among several sources: one with the right block, one with the right status, one with any block, or the first. */
  function SelectIndex(sources: seq<Source>, types: seq<SourceType>, t: SourceType): (r: nat)
    requires sources != []
    ensures r < |sources|
  {
    var typed := FirstSource(sources, s => HasBlock(s, t));
    var listed := IndexFrom(types, t, 0);
    var other := FirstSource(sources, HasAnyBlock);
    if typed < |sources| then typed
    else if !t.DirectorySource? && |types| == |sources| && listed < |types| then listed
    else if other < |sources| then other
    else 0
  }

  /** Which source getApplicationSource returns. */
  datatype Place = Among(index: nat) | Dry | Single

  function GetApplicationSource(spec: Spec, wbc: Option<WriteBackConfig>): (p: Place)
    requires ValidSpec(spec)
    ensures p.Among? ==> p.index < |spec.sources|
    ensures p.Dry? ==> spec.hydrator.Some?
  {
    if spec.multiple then Among(SelectIndex(spec.sources, spec.sourceTypes, GetApplicationSourceType(spec, wbc)))
    else if spec.hydrator.Some? then Dry
    else Single
  }

  function SourceAt(spec: Spec, p: Place): Source
    requires p.Among? ==> p.index < |spec.sources|
    requires p.Dry? ==> spec.hydrator.Some?
  {
    match p
    case Among(i) => spec.sources[i]
    case Dry => spec.hydrator.value
    case Single => spec.source
  }

  /** Giving a source Helm parameters; the copy of a dry source without a Helm block is lost. */
  function WithParams(spec: Spec, p: Place, params: seq<Param>): (r: Spec)
    requires p.Among? ==> p.index < |spec.sources|
    requires p.Dry? ==> spec.hydrator.Some?
    ensures ValidSpec(spec) ==> ValidSpec(r)
  {
    match p
    case Among(i) => spec.(sources := spec.sources[i := spec.sources[i].(helm := Some(params))])
    case Single => spec.(source := spec.source.(helm := Some(params)))
    case Dry =>
      if spec.hydrator.value.helm.None? then spec
      else spec.(hydrator := Some(spec.hydrator.value.(helm := Some(params))))
  }

  lemma {:induction false} FirstSourceIs(sources: seq<Source>, p: Source -> bool, i: nat, r: nat)
    requires i <= r < |sources| && p(sources[r]) && forall j :: i <= j < r ==> !p(sources[j])
    ensures FirstSource(sources, p, i) == r
    decreases r - i
  {
    if i < r {
      FirstSourceIs(sources, p, i + 1, r);
    }
  }

  /**
   The first source with the block its type calls for is selected; failing that, the first whose status
   is of the type, where the statuses are aligned with the sources; failing that, one with any block.
   */
  lemma SelectsByType(sources: seq<Source>, types: seq<SourceType>, t: SourceType, j: nat)
    requires j < |sources|
    ensures var i := SelectIndex(sources, types, t);
            && (HasBlock(sources[j], t) ==> HasBlock(sources[i], t) && i <= j)
            && (|types| == |sources| && types[j] == t && !t.DirectorySource? ==>
                  HasBlock(sources[i], t) || (types[i] == t && i <= j))
            && (HasAnyBlock(sources[j]) ==>
                  HasBlock(sources[i], t) || HasAnyBlock(sources[i]) || (|types| == |sources| && types[i] == t))
  {
  }

  /** Writing to the selected source does not change which source is selected. */
  lemma SelectionIsStable(sources: seq<Source>, types: seq<SourceType>, t: SourceType, params: seq<Param>)
    requires sources != []
    ensures var i := SelectIndex(sources, types, t);
            SelectIndex(sources[i := sources[i].(helm := Some(params))], types, t) == i
  {
    var i := SelectIndex(sources, types, t);
    var sources' := sources[i := sources[i].(helm := Some(params))];
    var typed, typed' := FirstSource(sources, s => HasBlock(s, t)), FirstSource(sources', s => HasBlock(s, t));
    var other, other' := FirstSource(sources, HasAnyBlock), FirstSource(sources', HasAnyBlock);
    assert forall j :: 0 <= j < |sources| && j != i ==> sources'[j] == sources[j];
    if typed < |sources| || t.HelmSource? {
      FirstSourceIs(sources', s => HasBlock(s, t), 0, i);
    } else {
      assert forall j :: 0 <= j < |sources| ==> !HasBlock(sources[j], t) && !HasBlock(sources'[j], t);
      if other < |sources| && i == other {
        FirstSourceIs(sources', HasAnyBlock, 0, i);
      } else if other == |sources| && i == 0 {
        FirstSourceIs(sources', HasAnyBlock, 0, 0);
      }
    }
  }

  lemma SameSourceSelected(spec: Spec, wbc: Option<WriteBackConfig>, params: seq<Param>)
    requires ValidSpec(spec)
    ensures var p := GetApplicationSource(spec, wbc);
            var spec' := WithParams(spec, p, params);
            && ValidSpec(spec') && GetApplicationSource(spec', wbc) == p
            && (IsHelmApplication(spec', wbc) <==> IsHelmApplication(spec, wbc))
            && SourceAt(spec', p).helm == if p.Dry? && SourceAt(spec, p).helm.None? then None else Some(params)
  {
    var p := GetApplicationSource(spec, wbc);
    var spec' := WithParams(spec, p, params);
    assert GetApplicationSourceType(spec', wbc) == GetApplicationSourceType(spec, wbc);
    if spec.multiple {
      SelectionIsStable(spec.sources, spec.sourceTypes, GetApplicationSourceType(spec, wbc), params);
    }
  }

  // ---------------------------------------------------------------------------------------------
  // Writing an image and reading it back
  // ---------------------------------------------------------------------------------------------

  const DEFAULT_HELM_IMAGE_NAME := "image.name"
  const DEFAULT_HELM_IMAGE_TAG := "image.tag"

  /** The parameter names configured for an image; `spec` overrides the other two. */
  datatype Target = Target(spec: string, name: string, tag: string)

  function NameParam(target: Target): string {
    if target.spec == "" && target.name == "" then DEFAULT_HELM_IMAGE_NAME else target.name
  }

  function TagParam(target: Target): string {
    if target.spec == "" && target.tag == "" then DEFAULT_HELM_IMAGE_TAG else target.tag
  }

  /** The parameters an image is written to. */
  function ImageParams(img: Image, target: Target): seq<Param> {
    if target.spec != "" then [Param(target.spec, GetFullNameWithTag(img), true)]
    else
      var name := Param(NameParam(target), GetFullNameWithoutTag(img), true);
      if GetTagWithDigest(img) != "" then [name, Param(TagParam(target), GetTagWithDigest(img), true)] else [name]
  }

  function ParamsAt(spec: Spec, p: Place): seq<Param>
    requires p.Among? ==> p.index < |spec.sources|
    requires p.Dry? ==> spec.hydrator.Some?
  {
    var s := SourceAt(spec, p);
    if s.helm.Some? then s.helm.value else []
  }

  /** The specification after SetHelmImage. */
  function Set(spec: Spec, wbc: Option<WriteBackConfig>, img: Image, target: Target): (r: Spec)
    requires ValidSpec(spec)
    ensures ValidSpec(r)
  {
    var p := GetApplicationSource(spec, wbc);
    WithParams(spec, p, Merged(ParamsAt(spec, p), ImageParams(img, target)))
  }

  /** What GetHelmImage finds in a list of parameters; the empty string if there is nothing. */
  function ImageIn(params: seq<Param>, target: Target): string {
    if target.spec != "" then
      var p := GetHelmParam(params, target.spec);
      if p.Some? then p.value.value else ""
    else
      var name, tag := GetHelmParam(params, NameParam(target)), GetHelmParam(params, TagParam(target));
      if name.None? || tag.None? then "" else name.value.value + ":" + tag.value.value
  }

  /** GetHelmImage; None stands for an error. */
  function GetHelmImage(spec: Spec, wbc: Option<WriteBackConfig>, target: Target): Option<string>
    requires ValidSpec(spec)
  {
    if !IsHelmApplication(spec, wbc) then None
    else Some(ImageIn(ParamsAt(spec, GetApplicationSource(spec, wbc)), target))
  }

  class Application {
    var spec: Spec

    constructor (spec: Spec)
      ensures this.spec == spec
    {
      this.spec := spec;
    }

    method SetHelmImage(newImage: Image, wbc: Option<WriteBackConfig>, target: Target) returns (ok: bool)
      requires ValidSpec(spec)
      modifies this
      ensures ok <==> IsHelmApplication(old(spec), wbc)
      ensures spec == if ok then Set(old(spec), wbc, newImage, target) else old(spec)
      ensures ValidSpec(spec)
    {
      if !IsHelmApplication(spec, wbc) {
        return false;
      }
      var mergeParams: seq<Param> := [];
      if target.spec != "" {
        mergeParams := mergeParams + [Param(target.spec, GetFullNameWithTag(newImage), true)];
      } else {
        mergeParams := mergeParams + [Param(NameParam(target), GetFullNameWithoutTag(newImage), true)];
        var tagValue := GetTagWithDigest(newImage);
        if tagValue != "" {
          mergeParams := mergeParams + [Param(TagParam(target), tagValue, true)];
        }
      }
      assert mergeParams == ImageParams(newImage, target);
      var appSource := GetApplicationSource(spec, wbc);
      var merged := MergeHelmParams(ParamsAt(spec, appSource), mergeParams);
      SameSourceSelected(spec, wbc, merged);
      spec := WithParams(spec, appSource, merged);
      return true;
    }
  }

  /** What is read after a write, in the list that was written. */
  lemma ImageInMerged(src: seq<Param>, img: Image, target: Target)
    ensures var r := ImageIn(Merged(src, ImageParams(img, target)), target);
            if target.spec != "" then r == GetFullNameWithTag(img)
            else if GetTagWithDigest(img) != "" then
              r == GetFullNameWithoutTag(img) + ":" +
                   if NameParam(target) == TagParam(target) then GetFullNameWithoutTag(img) else GetTagWithDigest(img)
            else r == "" || |r| > |GetFullNameWithoutTag(img)|
  {
    var merge := ImageParams(img, target);
    MergeOverrides(src, merge, target.spec);
    MergeOverrides(src, merge, NameParam(target));
    MergeOverrides(src, merge, TagParam(target));
    assert |merge| == 2 ==> merge[1..] == [merge[1]];
    assert |merge| == 1 ==> merge[1..] == [];
  }

  /**
   When an image is read back as written: never from a dry source without a Helm block; otherwise from
   the image-spec parameter always, and from two parameters if the image has a tag name and the
   parameters differ (or would hold the same text).
   */
  predicate ReadsBack(spec: Spec, wbc: Option<WriteBackConfig>, img: Image, target: Target)
    requires ValidSpec(spec)
  {
    var p := GetApplicationSource(spec, wbc);
    && !(p.Dry? && SourceAt(spec, p).helm.None?)
    && (target.spec != "" ||
        (&& img.tag.Some? && img.tag.value.name != ""
         && (NameParam(target) != TagParam(target) || GetFullNameWithoutTag(img) == GetTagWithDigest(img))))
  }

  lemma ReadBackOfName(img: Image, same: bool)
    requires GetTagWithDigest(img) != ""
    ensures var name, tag := GetFullNameWithoutTag(img), GetTagWithDigest(img);
            name + ":" + (if same then name else tag) == GetFullNameWithTag(img) <==>
            img.tag.Some? && img.tag.value.name != "" && (!same || name == tag)
  {
    FullNameFromParts(img);
    var name, tag, full := GetFullNameWithoutTag(img), GetTagWithDigest(img), GetFullNameWithTag(img);
    if img.tag.value.name == "" {
      assert full[|name|] == '@' && (name + ":" + name)[|name|] == ':';
    } else if same {
      assert full == name + ":" + tag;
      assert full[|name| + 1..] == tag && (name + ":" + name)[|name| + 1..] == name;
    }
  }

  /** GetHelmImage after SetHelmImage returns the full name of the image, exactly if it reads back. */
  lemma GetAfterSet(spec: Spec, wbc: Option<WriteBackConfig>, img: Image, target: Target)
    requires ValidSpec(spec) && IsHelmApplication(spec, wbc) && GetFullNameWithTag(img) != ""
    ensures ValidSpec(Set(spec, wbc, img, target))
    ensures GetHelmImage(Set(spec, wbc, img, target), wbc, target) == Some(GetFullNameWithTag(img)) <==>
            ReadsBack(spec, wbc, img, target)
  {
    var p := GetApplicationSource(spec, wbc);
    var src := ParamsAt(spec, p);
    var merged := Merged(src, ImageParams(img, target));
    SameSourceSelected(spec, wbc, merged);
    ImageInMerged(src, img, target);
    if GetTagWithDigest(img) != "" {
      ReadBackOfName(img, NameParam(target) == TagParam(target));
    } else {
      assert |GetFullNameWithTag(img)| == |GetFullNameWithoutTag(img)|;
    }
  }

  /** The Helm parameters that Argo CD would apply: those of the selected source. */
  function Selected(spec: Spec, wbc: Option<WriteBackConfig>): seq<Param>
    requires ValidSpec(spec)
  {
    ParamsAt(spec, GetApplicationSource(spec, wbc))
  }

  /**
   The name of an image goes to the parameter configured for names, `image.name` by default, and its tag to the one
   for tags, `image.tag` by default; an image without a tag leaves the tag alone. With one parameter for both, that
   holds the full name. No other parameter changes.
   */
  lemma WrittenParameters(spec: Spec, wbc: Option<WriteBackConfig>, img: Image, target: Target)
    requires ValidSpec(spec)
    requires var p := GetApplicationSource(spec, wbc); !(p.Dry? && SourceAt(spec, p).helm.None?)
    ensures var before, after := Selected(spec, wbc), Selected(Set(spec, wbc, img, target), wbc);
            var name := if target.name == "" then "image.name" else target.name;
            var tag := if target.tag == "" then "image.tag" else target.tag;
            if target.spec != "" then
              && GetHelmParam(after, target.spec) == Some(Param(target.spec, GetFullNameWithTag(img), true))
              && forall other :: other != target.spec ==> GetHelmParam(after, other) == GetHelmParam(before, other)
            else
              && GetHelmParam(after, name) == Some(Param(name, GetFullNameWithoutTag(img), true))
              && (tag != name ==>
                    GetHelmParam(after, tag) ==
                    if GetTagWithDigest(img) != "" then Some(Param(tag, GetTagWithDigest(img), true))
                    else GetHelmParam(before, tag))
              && forall other :: other !in {name, tag} ==> GetHelmParam(after, other) == GetHelmParam(before, other)
  {
    forall name
      ensures GetHelmParam(Selected(Set(spec, wbc, img, target), wbc), name) ==
              if Written(img, target, name).Some? then Written(img, target, name)
              else GetHelmParam(Selected(spec, wbc), name)
    {
      WrittenParameter(spec, wbc, img, target, name);
    }
  }

  /** What writing an image makes of a parameter, if anything. */
  function Written(img: Image, target: Target, name: string): Option<Param> {
    if target.spec != "" then
      if name == target.spec then Some(Param(name, GetFullNameWithTag(img), true)) else None
    else if name == (if target.name == "" then "image.name" else target.name) then
      Some(Param(name, GetFullNameWithoutTag(img), true))
    else if name == (if target.tag == "" then "image.tag" else target.tag) && GetTagWithDigest(img) != "" then
      Some(Param(name, GetTagWithDigest(img), true))
    else None
  }

  lemma WrittenParameter(spec: Spec, wbc: Option<WriteBackConfig>, img: Image, target: Target, name: string)
    requires ValidSpec(spec)
    requires var p := GetApplicationSource(spec, wbc); !(p.Dry? && SourceAt(spec, p).helm.None?)
    ensures GetHelmParam(Selected(Set(spec, wbc, img, target), wbc), name) ==
            if Written(img, target, name).Some? then Written(img, target, name)
            else GetHelmParam(Selected(spec, wbc), name)
  {
    var src, merge := Selected(spec, wbc), ImageParams(img, target);
    SameSourceSelected(spec, wbc, Merged(src, merge));
    MergeOverrides(src, merge, name);
    WrittenIs(img, target, name);
  }

  lemma WrittenIs(img: Image, target: Target, name: string)
    ensures GetHelmParam(ImageParams(img, target), name) == Written(img, target, name)
  {
    var merge := ImageParams(img, target);
    assert |merge| == 2 ==> merge[1..] == [merge[1]];
    assert |merge| == 1 ==> merge[1..] == [];
  }

  /** The first of several statuses that is not a directory decides on the type. */
  lemma {:induction false} FirstTypeIs(types: seq<SourceType>, i: nat)
    requires i < |types| && types[i] != DirectorySource && forall j :: 0 <= j < i ==> types[j] == DirectorySource
    ensures FirstKnownType(types) == types[i]
    decreases i
  {
    if i > 0 {
      FirstTypeIs(types[1..], i - 1);
    }
  }

  lemma {:induction false} NoTypeIsKnown(types: seq<SourceType>)
    requires forall j :: 0 <= j < |types| ==> types[j] == DirectorySource
    ensures FirstKnownType(types) == DirectorySource
  {
    if types != [] {
      NoTypeIsKnown(types[1..]);
    }
  }

  /** An application whose write-back says nothing is a Helm application by its first known status. */
  lemma MultipleIsHelm(spec: Spec, wbc: Option<WriteBackConfig>)
    requires spec.multiple && (wbc.Some? ==> !wbc.value.hasKustomizeBase && !wbc.value.hasHelmValuesTarget)
    ensures IsHelmApplication(spec, wbc) <==>
            exists i :: 0 <= i < |spec.sourceTypes| &&
              (forall j :: 0 <= j < i ==> spec.sourceTypes[j] == DirectorySource) &&
              (spec.sourceTypes[i] == HelmSource || (spec.sourceTypes[i] == PluginSource && wbc.Some? && wbc.value.git))
  {
    if exists i :: 0 <= i < |spec.sourceTypes| && spec.sourceTypes[i] != DirectorySource {
      var i :| 0 <= i < |spec.sourceTypes| && spec.sourceTypes[i] != DirectorySource;
      var first := FirstKnown(spec.sourceTypes, i);
      FirstTypeIs(spec.sourceTypes, first);
    } else {
      NoTypeIsKnown(spec.sourceTypes);
    }
  }

  lemma {:induction false} FirstKnown(types: seq<SourceType>, i: nat) returns (first: nat)
    requires i < |types| && types[i] != DirectorySource
    ensures first <= i && types[first] != DirectorySource && forall j :: 0 <= j < first ==> types[j] == DirectorySource
  {
    first := i;
    if exists j :: 0 <= j < i && types[j] != DirectorySource {
      var j :| 0 <= j < i && types[j] != DirectorySource;
      first := FirstKnown(types, j);
    }
  }

  /** One with a single source is so by the block of its dry source, or else by its status. */
  lemma SingleIsHelm(spec: Spec, wbc: Option<WriteBackConfig>)
    requires !spec.multiple && (wbc.Some? ==> !wbc.value.hasKustomizeBase && !wbc.value.hasHelmValuesTarget)
    ensures var git := wbc.Some? && wbc.value.git;
            IsHelmApplication(spec, wbc) <==>
            match spec.hydrator
            case Some(Source(Some(_), _, _)) => true
            case Some(Source(None, kustomize, plugin)) =>
              if kustomize then false else if plugin then git
              else spec.sourceType == HelmSource || (spec.sourceType == PluginSource && git)
            case None => spec.sourceType == HelmSource || (spec.sourceType == PluginSource && git)
  {
  }

  /** The write-back target overrides both. */
  lemma TargetDecides(spec: Spec, wbc: WriteBackConfig)
    requires wbc.hasKustomizeBase || wbc.hasHelmValuesTarget
    ensures IsHelmApplication(spec, Some(wbc)) <==> !wbc.hasKustomizeBase
  {
  }

  /** The parameters of other names, and the other sources, are as before. */
  lemma OthersUnchanged(spec: Spec, wbc: Option<WriteBackConfig>, img: Image, target: Target, name: string)
    requires ValidSpec(spec) && forall p :: p in ImageParams(img, target) ==> p.name != name
    ensures var p, spec' := GetApplicationSource(spec, wbc), Set(spec, wbc, img, target);
            && |spec'.sources| == |spec.sources| && (spec'.hydrator.Some? <==> spec.hydrator.Some?)
            && spec'.sourceType == spec.sourceType && spec'.sourceTypes == spec.sourceTypes
            && spec'.multiple == spec.multiple
            && (p != Single ==> spec'.source == spec.source)
            && (p != Dry ==> spec'.hydrator == spec.hydrator)
            && GetHelmParam(ParamsAt(spec', p), name) == GetHelmParam(ParamsAt(spec, p), name)
            && forall i :: 0 <= i < |spec.sources| && p != Among(i) ==> spec'.sources[i] == spec.sources[i]
  {
    var p := GetApplicationSource(spec, wbc);
    MergeOverrides(ParamsAt(spec, p), ImageParams(img, target), name);
    SameSourceSelected(spec, wbc, Merged(ParamsAt(spec, p), ImageParams(img, target)));
  }

  /** Setting an image to two different parameters again changes nothing. */
  lemma SetIsIdempotent(spec: Spec, wbc: Option<WriteBackConfig>, img: Image, target: Target)
    requires ValidSpec(spec) && (target.spec != "" || NameParam(target) != TagParam(target))
    ensures var spec' := Set(spec, wbc, img, target);
            ValidSpec(spec') && Set(spec', wbc, img, target) == spec'
  {
    var p := GetApplicationSource(spec, wbc);
    var src, merge := ParamsAt(spec, p), ImageParams(img, target);
    SameSourceSelected(spec, wbc, Merged(src, merge));
    MergeIsIdempotent(src, merge);
    GivenTwice(spec, p, Merged(src, merge));
  }

  lemma GivenTwice(spec: Spec, p: Place, params: seq<Param>)
    requires p.Among? ==> p.index < |spec.sources|
    requires p.Dry? ==> spec.hydrator.Some?
    ensures WithParams(WithParams(spec, p, params), p, params) == WithParams(spec, p, params)
  {
  }

  // ---------------------------------------------------------------------------------------------
  // Images that do not read back
  // ---------------------------------------------------------------------------------------------

  /** With one parameter for name and tag, the name is read twice. */
  lemma SharedParameterIsNotReadBack()
    ensures var spec := Spec(false, [], None, Source(None, false, false), HelmSource, []);
            var img, target := Image("", "", "nginx", Some(Tag("1", ""))), Target("", "image", "image");
            GetHelmImage(Set(spec, None, img, target), None, target) != Some(GetFullNameWithTag(img))
  {
    var spec := Spec(false, [], None, Source(None, false, false), HelmSource, []);
    var img, target := Image("", "", "nginx", Some(Tag("1", ""))), Target("", "image", "image");
    assert |GetFullNameWithoutTag(img)| == 5 && |GetTagWithDigest(img)| == 1;
    assert |GetFullNameWithTag(img)| > 0;
    GetAfterSet(spec, None, img, target);
  }

  /** In a hydrated application without a Helm block the image is lost. */
  lemma DrySourceIsNotReadBack()
    ensures var spec := Spec(false, [], Some(Source(None, false, false)), Source(None, false, false), HelmSource, []);
            var img, target := Image("", "", "nginx", Some(Tag("1", ""))), Target("image", "", "");
            GetHelmImage(Set(spec, None, img, target), None, target) != Some(GetFullNameWithTag(img))
  {
    var spec := Spec(false, [], Some(Source(None, false, false)), Source(None, false, false), HelmSource, []);
    var img, target := Image("", "", "nginx", Some(Tag("1", ""))), Target("image", "", "");
    assert |GetFullNameWithTag(img)| > 0;
    GetAfterSet(spec, None, img, target);
  }
}

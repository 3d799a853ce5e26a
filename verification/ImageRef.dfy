/**
 Image references (registry-scanner/pkg/image/image.go): printing an image and reading it back with
 the parser that handles identifiers the reference library rejects.
 */
module ImageRef {
  import opened Options
  import opened Strings
  import opened Sequences

  datatype Tag = Tag(name: string, digest: string)

  datatype Image = Image(alias: string, registry: string, name: string, tag: Option<Tag>)

  // ---------------------------------------------------------------------------------------------
  // Printing
  // ---------------------------------------------------------------------------------------------

  predicate HasPrefix(s: string, prefix: string) {
    prefix <= s
  }

  function GetFullNameWithoutTag(img: Image): string {
    (if img.registry != "" && !HasPrefix(img.name, img.registry + "/") then img.registry + "/" else "") + img.name
  }

  /** The tag name and the digest, each with its separator. */
  function TagSuffix(tag: Option<Tag>): string {
    if tag.None? then ""
    else
      (if tag.value.name != "" then ":" + tag.value.name else "") +
      (if tag.value.digest != "" then "@" + tag.value.digest else "")
  }

  function GetFullNameWithTag(img: Image): string {
    GetFullNameWithoutTag(img) + TagSuffix(img.tag)
  }

  function GetTagWithDigest(img: Image): string {
    if img.tag.None? then ""
    else if img.tag.value.digest == "" then img.tag.value.name
    else (if img.tag.value.name == "" then "latest" else img.tag.value.name) + "@" + img.tag.value.digest
  }

  function String(img: Image): string {
    (if img.alias != "" then img.alias + "=" else "") + GetFullNameWithTag(img)
  }

  /** The full name is the name and the tag with digest around a colon, exactly if the image has a tag name. */
  lemma FullNameFromParts(img: Image)
    ensures GetFullNameWithTag(img) == GetFullNameWithoutTag(img) + ":" + GetTagWithDigest(img) <==>
            img.tag.Some? && img.tag.value.name != ""
  {
    SuffixFromParts(img.tag, GetFullNameWithoutTag(img), GetTagWithDigest(img));
  }

  lemma SuffixFromParts(tag: Option<Tag>, name: string, printed: string)
    requires printed == GetTagWithDigest(Image("", "", "", tag))
    ensures name + TagSuffix(tag) == name + ":" + printed <==> tag.Some? && tag.value.name != ""
  {
    assert name + ":" + printed == name + (":" + printed);
    Cancel(name, TagSuffix(tag), ":" + printed);
    if tag.Some? && tag.value.name != "" {
      assert tag.value.digest == "" ==> TagSuffix(tag) == ":" + tag.value.name;
      assert ":" + tag.value.name + ("@" + tag.value.digest) == ":" + (tag.value.name + "@" + tag.value.digest);
    } else {
      assert TagSuffix(tag) != "" ==> TagSuffix(tag)[0] == '@';
      assert (":" + printed)[0] == ':';
    }
  }

  // ---------------------------------------------------------------------------------------------
  // Parsing
  // ---------------------------------------------------------------------------------------------

  /** strings.LastIndex among the first `n` characters. */
  function LastIndex(s: string, c: char, n: nat): (i: int)
    requires n <= |s|
    ensures -1 <= i < n
    ensures i >= 0 ==> s[i] == c
    ensures forall j :: i < j < n ==> s[j] != c
  {
    if n == 0 then -1 else if s[n - 1] == c then n - 1 else LastIndex(s, c, n - 1)
  }

  function GetRegistryFromIdentifier(identifier: string): string {
    var comp := Split(identifier, '=');
    var imageString := if |comp| > 1 then comp[1] else identifier;
    var segments := Split(imageString, '/');
    if |segments| > 1 && '.' in segments[0] then segments[0] else ""
  }

  function GetImageDigestFromTag(tagStr: string): Tag {
    var a := Split(tagStr, '@');
    if |a| != 2 then Tag(tagStr, "") else Tag(a[0], a[1])
  }

  /** The name and the tag name before a digest. */
  function ParseDigested(first: string, digest: string): (string, Option<Tag>) {
    var colonPos, slashPos := LastIndex(first, ':', |first|), LastIndex(first, '/', |first|);
    if colonPos > slashPos then (first[..colonPos], Some(Tag(first[colonPos + 1..], digest)))
    else (first, Some(Tag("", digest)))
  }

  /** The name, and the tag if there is one, of an image string without its registry. */
  function ParseSlug(imageString: string): (string, Option<Tag>) {
    if '@' in imageString then
      var (first, digest, _) := Cut(imageString, '@');
      ParseDigested(first, digest)
    else
      var (name, tagStr, found) := Cut(imageString, ':');
      if !found then (imageString, None) else (name, Some(GetImageDigestFromTag(tagStr)))
  }

  /** Strips the registry, a first segment with a dot in it. */
  function WithoutRegistry(imageString: string): string {
    var comp := Split(imageString, '/');
    if |comp| > 1 && '.' in comp[0] then Join(comp[1..], '/') else imageString
  }

  function GetImageTagFromIdentifier(identifier: string): (string, string, Option<Tag>) {
    var (before, after, found) := Cut(identifier, '=');
    var (name, tag) := ParseSlug(WithoutRegistry(if found then after else identifier));
    (if found then before else "", name, tag)
  }

  /** The fallback of NewFromIdentifier. */
  function Parse(identifier: string): Image {
    var (alias, name, tag) := GetImageTagFromIdentifier(identifier);
    Image(alias, GetRegistryFromIdentifier(identifier), name, tag)
  }

  // ---------------------------------------------------------------------------------------------
  // Names and tags
  // ---------------------------------------------------------------------------------------------

  function Slug(name: string, tag: Option<Tag>): string {
    name + TagSuffix(tag)
  }

  /** When a name and a tag can be told apart again. */
  predicate SlugReadable(name: string, tag: Option<Tag>) {
    match tag
    case None => ':' !in name && '@' !in name
    case Some(Tag(tagName, digest)) =>
      && '@' !in name && '@' !in tagName
      && if digest == "" then tagName != "" && ':' !in name
         else if tagName != "" then ':' !in tagName && '/' !in tagName
         else LastIndex(name, ':', |name|) <= LastIndex(name, '/', |name|)
  }

  lemma DigestFromTag(tagStr: string)
    requires '@' !in tagStr
    ensures GetImageDigestFromTag(tagStr) == Tag(tagStr, "")
  {
    CutNone(tagStr, '@');
  }

  lemma ParsedDigestedIsNoLonger(first: string, digest: string)
    ensures var (name, tag) := ParseDigested(first, digest);
            && tag.Some? && tag.value.digest == digest
            && |Slug(name, tag)| <= |first| + if digest == "" then 0 else 1 + |digest|
  {
  }

  /** What a parsed slug prints is no longer than the slug. */
  lemma ParsedSlugIsNoLonger(s: string)
    ensures var (name, tag) := ParseSlug(s);
            |Slug(name, tag)| <= |s|
    ensures '@' in s ==> ParseSlug(s).1.Some?
    ensures '@' in s && ParseSlug(s).1.value.digest == "" ==> |Slug(ParseSlug(s).0, ParseSlug(s).1)| < |s|
  {
    if '@' in s {
      var (first, digest, _) := Cut(s, '@');
      assert |s| == |first| + 1 + |digest| by {
        CutParts(s, '@');
      }
      ParsedDigestedIsNoLonger(first, digest);
    } else {
      var (name, tagStr, found) := Cut(s, ':');
      CutParts(s, ':');
      if found {
        DigestFromTag(tagStr);
      }
    }
  }

  /** Where the last `c` of a string lies, from what follows a position. */
  lemma LastIndexAfter(name: string, sep: char, tagName: string, c: char)
    ensures var first := name + [sep] + tagName;
            LastIndex(first, c, |first|) > |name| <==> c in tagName
    ensures var first := name + [sep] + tagName;
            sep == c ==> LastIndex(first, c, |first|) >= |name|
  {
    var first := name + [sep] + tagName;
    var i := LastIndex(first, c, |first|);
    assert first[|name|] == sep;
    if c in tagName {
      var j :| 0 <= j < |tagName| && tagName[j] == c;
      assert first[|name| + 1 + j] == c;
    }
    if i > |name| {
      assert tagName[i - |name| - 1] == c;
    }
  }

  /** Before a digest, the last colon separates the name and the tag name, if no slash follows it. */
  lemma NamedIsRead(name: string, tagName: string, digest: string)
    ensures ParseDigested(name + ":" + tagName, digest) == (name, Some(Tag(tagName, digest))) <==>
            ':' !in tagName && '/' !in tagName
  {
    LastIndexAfter(name, ':', tagName, ':');
    LastIndexAfter(name, ':', tagName, '/');
    var first := name + ":" + tagName;
    var colonPos := LastIndex(first, ':', |first|);
    assert first[|name|] == ':';
    if colonPos == |name| {
      assert first[..colonPos] == name && first[colonPos + 1..] == tagName;
    } else {
      assert |first[..colonPos]| != |name|;
    }
  }

  lemma UntaggedSlug(name: string)
    ensures ParseSlug(name) == (name, None) <==> ':' !in name && '@' !in name
    ensures ParseSlug(name) != (name, Some(Tag("", "")))
  {
    CutParts(name, '@');
    CutParts(name, ':');
    ParsedSlugIsNoLonger(name);
  }

  lemma TaggedSlug(name: string, tagName: string)
    requires tagName != ""
    ensures ParseSlug(name + ":" + tagName) == (name, Some(Tag(tagName, ""))) <==>
            '@' !in name && '@' !in tagName && ':' !in name
  {
    var s := name + ":" + tagName;
    assert '@' in s <==> '@' in name || '@' in tagName;
    if '@' in s {
      ParsedSlugIsNoLonger(s);
      assert |Slug(name, Some(Tag(tagName, "")))| == |s|;
    } else if ':' in name {
      assert s == name + (":" + tagName);
      FirstCut(name, ':', ":" + tagName);
    } else {
      CutFirst(name, ':', tagName);
      DigestFromTag(tagName);
    }
  }

  /** A separator in the first part of a string ends what precedes the cut early. */
  lemma FirstCut(a: string, c: char, b: string)
    requires c in a
    ensures |Cut(a + b, c).0| < |a| && |Cut(a + b, c).1| >= |b|
  {
    var s := a + b;
    var i :| 0 <= i < |a| && a[i] == c;
    assert s[i] == c;
    assert Index(s, c) <= i;
  }

  lemma DigestedSlug(first: string, digest: string)
    ensures '@' in first ==> |Cut(first + "@" + digest, '@').1| > |digest|
    ensures '@' !in first ==> ParseSlug(first + "@" + digest) == ParseDigested(first, digest)
  {
    var s := first + "@" + digest;
    assert s[|first|] == '@';
    if '@' in first {
      FirstCut(first, '@', "@" + digest);
      assert s == first + ("@" + digest);
    } else {
      CutFirst(first, '@', digest);
    }
  }

  lemma ParseDigestedDigest(s: string)
    requires '@' in s
    ensures ParseSlug(s).1.Some? && ParseSlug(s).1.value.digest == Cut(s, '@').1
  {
  }

  /** A name and a tag are read back exactly if they can be told apart. */
  lemma SlugRoundTrip(name: string, tag: Option<Tag>)
    ensures ParseSlug(Slug(name, tag)) == (name, tag) <==> SlugReadable(name, tag)
  {
    if tag.None? || tag.value == Tag("", "") {
      UntaggedSlug(name);
      assert Slug(name, tag) == name;
    } else {
      var Tag(tagName, digest) := tag.value;
      SlugIs(name, tagName, digest);
      if digest == "" {
        TaggedSlug(name, tagName);
      } else {
        DigestedRoundTrip(name, tagName, if tagName != "" then name + ":" + tagName else name, digest);
      }
    }
  }

  lemma SlugIs(name: string, tagName: string, digest: string)
    ensures var first := if tagName != "" then name + ":" + tagName else name;
            Slug(name, Some(Tag(tagName, digest))) == if digest == "" then first else first + "@" + digest
  {
    assert name + ((":" + tagName) + ("@" + digest)) == (name + ":" + tagName) + "@" + digest;
    assert name + ((":" + tagName) + "") == name + ":" + tagName;
    assert name + ("" + ("@" + digest)) == name + "@" + digest;
  }

  lemma DigestedRoundTrip(name: string, tagName: string, first: string, digest: string)
    requires digest != "" && first == if tagName != "" then name + ":" + tagName else name
    ensures ParseSlug(first + "@" + digest) == (name, Some(Tag(tagName, digest))) <==>
            SlugReadable(name, Some(Tag(tagName, digest)))
  {
    var s := first + "@" + digest;
    assert s[|first|] == '@';
    assert '@' in first <==> '@' in name || '@' in tagName;
    DigestedSlug(first, digest);
    ParseDigestedDigest(s);
    if tagName != "" {
      NamedIsRead(name, tagName, digest);
    }
  }

  // ---------------------------------------------------------------------------------------------
  // Registries and aliases
  // ---------------------------------------------------------------------------------------------

  /** The first segment of several has a dot in it. */
  predicate StartsWithRegistry(s: string) {
    Cut(s, '/').2 && '.' in Cut(s, '/').0
  }

  lemma SegmentsOf(s: string, c: char)
    ensures var (before, after, found) := Cut(s, c);
            && (|Split(s, c)| > 1 <==> found)
            && Split(s, c)[0] == before
            && (found ==> Join(Split(s, c)[1..], c) == after)
  {
    var (before, after, found) := Cut(s, c);
    CutParts(s, c);
    if found {
      SplitParts(after, c);
      assert Split(s, c)[1..] == Split(after, c);
    }
  }

  lemma RegistryAndRest(s: string)
    ensures WithoutRegistry(s) == if StartsWithRegistry(s) then Cut(s, '/').1 else s
    ensures '=' !in s ==> GetRegistryFromIdentifier(s) == if StartsWithRegistry(s) then Cut(s, '/').0 else ""
  {
    SegmentsOf(s, '/');
    CutNoneIf(s, '=');
  }

  lemma CutNoneIf(s: string, c: char)
    ensures c !in s ==> Cut(s, c) == (s, "", false)
  {
    if c !in s {
      CutNone(s, c);
    }
  }

  /** An alias in front changes nothing else that is read. */
  lemma AliasIsRead(alias: string, full: string)
    requires '=' !in alias && '=' !in full
    ensures var identifier := (if alias != "" then alias + "=" else "") + full;
            Parse(identifier) == Parse(full).(alias := alias)
  {
    CutNone(full, '=');
    if alias != "" {
      var identifier := alias + "=" + full;
      CutFirst(alias, '=', full);
      assert Split(identifier, '=') == [alias, full];
    } else {
      assert "" + full == full;
    }
  }

  /** No part of the image contains the separator of the alias. */
  predicate NoEquals(img: Image) {
    && '=' !in img.alias && '=' !in img.registry && '=' !in img.name
    && (img.tag.Some? ==> '=' !in img.tag.value.name && '=' !in img.tag.value.digest)
  }

  /**
   A registry is printed in front of the name and can be told from it by a dot; without a registry
   nothing that is printed may look like one. The name and the tag can be told apart.
   */
  predicate Readable(img: Image) {
    && (if img.registry == "" then !StartsWithRegistry(Slug(img.name, img.tag))
        else '.' in img.registry && '/' !in img.registry && !HasPrefix(img.name, img.registry + "/"))
    && SlugReadable(img.name, img.tag)
  }

  /** The image without its alias, once printed. */
  lemma FullNameRoundTrip(img: Image)
    requires NoEquals(img) && img.alias == ""
    ensures Parse(GetFullNameWithTag(img)) == img <==> Readable(img)
  {
    var full, rest := GetFullNameWithTag(img), Slug(img.name, img.tag);
    FullNameIs(img, rest);
    if img.registry == "" {
      UnregisteredRoundTrip(img, rest);
    } else if HasPrefix(img.name, img.registry + "/") {
      PrefixedIsLost(img, rest);
    } else {
      RegisteredRoundTrip(img, rest);
    }
  }

  lemma FullNameIs(img: Image, rest: string)
    requires rest == Slug(img.name, img.tag)
    ensures GetFullNameWithTag(img) ==
            if img.registry == "" || HasPrefix(img.name, img.registry + "/") then rest else img.registry + "/" + rest
    ensures NoEquals(img) ==> '=' !in rest
  {
    var suffix := TagSuffix(img.tag);
    assert rest == img.name + suffix;
    assert ("" + img.name) + suffix == rest;
    assert (img.registry + "/" + img.name) + suffix == img.registry + "/" + rest;
  }

  lemma UnregisteredRoundTrip(img: Image, rest: string)
    requires img.alias == "" && img.registry == "" && rest == Slug(img.name, img.tag) && '=' !in rest
    ensures Parse(rest) == img <==> Readable(img)
  {
    RegistryAndRest(rest);
    CutNone(rest, '=');
    SlugRoundTrip(img.name, img.tag);
  }

  lemma RegisteredRoundTrip(img: Image, rest: string)
    requires img.alias == "" && img.registry != "" && rest == Slug(img.name, img.tag)
    requires !HasPrefix(img.name, img.registry + "/")
    requires '=' !in img.registry && '=' !in rest
    ensures Parse(img.registry + "/" + rest) == img <==> Readable(img)
  {
    var full := img.registry + "/" + rest;
    RegistryAndRest(full);
    CutNone(full, '=');
    SlugRoundTrip(img.name, img.tag);
    CutParts(full, '/');
    if '/' !in img.registry {
      CutFirst(img.registry, '/', rest);
    }
  }

  /** A name that starts with the registry is printed once and read without it. */
  lemma PrefixedIsLost(img: Image, rest: string)
    requires img.alias == "" && img.registry != "" && rest == Slug(img.name, img.tag)
    requires HasPrefix(img.name, img.registry + "/")
    requires '=' !in rest
    ensures Parse(rest) != img
  {
    RegistryAndRest(rest);
    CutNone(rest, '=');
    CutParts(rest, '/');
    ParsedSlugIsNoLonger(WithoutRegistry(rest));
  }

  /** An image is read back as it was printed, exactly if it is readable. */
  lemma RoundTrip(img: Image)
    requires NoEquals(img)
    ensures Parse(String(img)) == img <==> Readable(img)
  {
    var bare := img.(alias := "");
    var full := GetFullNameWithTag(img);
    assert full == GetFullNameWithTag(bare) && '=' !in full;
    FullNameRoundTrip(bare);
    AliasIsRead(img.alias, full);
    AliasIsRead("", full);
    assert "" + full == full;
  }

  /** A registry without a dot, such as a host of the local network, is read as part of the name. */
  lemma UndottedRegistryIsLost()
    ensures Parse(String(Image("", "r", "n", None))) != Image("", "r", "n", None)
  {
    var img := Image("", "r", "n", None);
    assert '.' !in img.registry && NoEquals(img);
    RoundTrip(img);
  }

  // ---------------------------------------------------------------------------------------------
  // Matching live images
  // ---------------------------------------------------------------------------------------------

  predicate SameRepository(img: Image, live: Image) {
    img.name == live.name && img.registry == live.registry
  }

  /** The live image runs a digest other than the latest one. */
  predicate IsStale(live: Image, latestDigest: string) {
    live.tag.Some? && live.tag.value.digest != "" && live.tag.value.digest != latestDigest
  }

  predicate SameTagName(img: Image, live: Image) {
    img.tag.Some? && img.tag.value.name != "" && live.tag.Some? && live.tag.value.name == img.tag.value.name
  }

  /** The first image of a list with a property. */
  function First(list: seq<Image>, p: Image -> bool): (r: Option<Image>)
    ensures r.Some? ==> r.value in list && p(r.value)
    ensures r.None? ==> forall x :: x in list ==> !p(x)
  {
    if list == [] then None
    else if p(list[0]) then Some(list[0])
    else First(list[1..], p)
  }

  lemma {:induction false} FirstOfConcat(a: seq<Image>, b: seq<Image>, p: Image -> bool)
    ensures First(a + b, p) == if First(a, p).Some? then First(a, p) else First(b, p)
    decreases |a|
  {
    if a == [] {
      assert a + b == b;
    } else {
      assert (a + b)[1..] == a[1..] + b;
      FirstOfConcat(a[1..], b, p);
    }
  }

  lemma FirstOfMore(list: seq<Image>, i: nat, p: Image -> bool)
    requires i < |list|
    ensures First(list[..i + 1], p) ==
            if First(list[..i], p).Some? then First(list[..i], p) else if p(list[i]) then Some(list[i]) else None
    ensures First(list[..i + 1], p).Some? ==> First(list, p) == First(list[..i + 1], p)
  {
    assert list[..i + 1] == list[..i] + [list[i]] && list == list[..i + 1] + list[i + 1..];
    assert [list[i]][1..] == [];
    FirstOfConcat(list[..i], [list[i]], p);
    FirstOfConcat(list[..i + 1], list[i + 1..], p);
  }

  /** The tracked container that needs an update, else the tracked one, else any that needs an update. */
  function BestMatch(list: seq<Image>, img: Image, latestDigest: string): Option<Image> {
    var pending :=
      First(list, live => SameRepository(img, live) && SameTagName(img, live) && IsStale(live, latestDigest));
    var tracked := First(list, live => SameRepository(img, live) && SameTagName(img, live));
    var stale := First(list, live => SameRepository(img, live) && IsStale(live, latestDigest));
    if pending.Some? then pending else if tracked.Some? then tracked else stale
  }

  /** A live image of the wanted repository, by its fields. */
  predicate IsOf(img: Image, live: Image) {
    live.registry == img.registry && live.name == img.name
  }

  /** It runs the tag name that is tracked. */
  predicate Tracks(img: Image, live: Image) {
    && IsOf(img, live) && img.tag.Some? && live.tag.Some?
    && img.tag.value.name != "" && img.tag.value.name == live.tag.value.name
  }

  /** It runs an older digest. */
  predicate RunsOlder(img: Image, live: Image, latestDigest: string) {
    IsOf(img, live) && live.tag.Some? && live.tag.value.digest !in {"", latestDigest}
  }

  /**
   What is chosen is of the wanted repository; it has the tracked tag if any live image of the repository does, and is
   then outdated if any such one is. Without a tracked one it is outdated.
   */
  lemma BestMatchIs(list: seq<Image>, img: Image, latestDigest: string)
    ensures var r := BestMatch(list, img, latestDigest);
            && (r.Some? <==> exists x :: x in list && (Tracks(img, x) || RunsOlder(img, x, latestDigest)))
            && (r.Some? ==> r.value in list && IsOf(img, r.value))
            && (r.Some? && (exists x :: x in list && Tracks(img, x)) ==> Tracks(img, r.value))
            && (r.Some? && (exists x :: x in list && Tracks(img, x) && RunsOlder(img, x, latestDigest)) ==>
                  RunsOlder(img, r.value, latestDigest))
            && (r.Some? && !Tracks(img, r.value) ==> RunsOlder(img, r.value, latestDigest))
  {
    var r := BestMatch(list, img, latestDigest);
    assert r.Some? ==> Tracks(img, r.value) || RunsOlder(img, r.value, latestDigest);
  }

  /** An image that has everything is spelled with all separators. */
  lemma SpelledOut(alias: string, registry: string, name: string, tag: string, digest: string)
    requires alias != "" && registry != "" && !(registry + "/" <= name) && tag != "" && digest != ""
    ensures var img := Image(alias, registry, name, Some(Tag(tag, digest)));
            && String(img) == alias + "=" + registry + "/" + name + ":" + tag + "@" + digest
            && GetFullNameWithoutTag(img) == registry + "/" + name && GetTagWithDigest(img) == tag + "@" + digest
  {
    var img := Image(alias, registry, name, Some(Tag(tag, digest)));
    assert GetFullNameWithTag(img) == registry + "/" + name + ":" + tag + "@" + digest;
    assert String(img) == alias + "=" + (registry + "/" + name + ":" + tag + "@" + digest);
  }

  /** Without a registry, a digest or a tag name nothing stands for them, but for the tag of a bare digest. */
  lemma SpelledShort(name: string, tag: string, digest: string)
    requires tag != "" && digest != ""
    ensures String(Image("", "", name, None)) == name
    ensures String(Image("", "", name, Some(Tag(tag, "")))) == name + ":" + tag
    ensures String(Image("", "", name, Some(Tag("", digest)))) == name + "@" + digest
    ensures GetTagWithDigest(Image("", "", name, None)) == ""
    ensures GetTagWithDigest(Image("", "", name, Some(Tag(tag, "")))) == tag
    ensures GetTagWithDigest(Image("", "", name, Some(Tag("", digest)))) == "latest@" + digest
  {
  }

  method MatchForDigestUpdate(list: seq<Image>, img: Image, latestDigest: string) returns (r: Option<Image>)
    ensures r == BestMatch(list, img, latestDigest)
  {
    ghost var pending := live => SameRepository(img, live) && SameTagName(img, live) && IsStale(live, latestDigest);
    ghost var tracked := live => SameRepository(img, live) && SameTagName(img, live);
    ghost var stale := live => SameRepository(img, live) && IsStale(live, latestDigest);
    var wantTag := if img.tag.Some? then img.tag.value.name else "";
    var firstTagMatch: Option<Image>, staleNameMatch: Option<Image> := None, None;
    for i := 0 to |list|
      invariant First(list[..i], pending).None?
      invariant firstTagMatch == First(list[..i], tracked) && staleNameMatch == First(list[..i], stale)
    {
      var live := list[i];
      FirstOfMore(list, i, pending);
      FirstOfMore(list, i, tracked);
      FirstOfMore(list, i, stale);
      if img.name != live.name || img.registry != live.registry {
        continue;
      }
      var isStale := live.tag.Some? && live.tag.value.digest != "" && live.tag.value.digest != latestDigest;
      if isStale && staleNameMatch.None? {
        staleNameMatch := Some(live);
      }
      if wantTag != "" && live.tag.Some? && live.tag.value.name == wantTag {
        if isStale {
          return Some(live);
        }
        if firstTagMatch.None? {
          firstTagMatch := Some(live);
        }
      }
    }
    assert list[..|list|] == list;
    return if firstTagMatch.Some? then firstTagMatch else staleNameMatch;
  }
}

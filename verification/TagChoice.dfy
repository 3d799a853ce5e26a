/**
 Choosing the newest tag (registry-scanner/pkg/tag/tag.go, registry-scanner/pkg/tag/semver.go and
 registry-scanner/pkg/image/version.go).

 Tags live in a map whose iteration order is arbitrary, so a deterministic choice needs every sort to
 use a strict total order. The orders are defined here from their parts and proved to be one; the
 choice is then the maximum of the eligible tags, which is unique.
 */
module TagChoice {
  import opened Options

  // ---------------------------------------------------------------------------------------------
  // Orders
  // ---------------------------------------------------------------------------------------------

  /** Lexical comparison of strings: negative, zero or positive. */
  function CompareText(a: string, b: string): (c: int)
    decreases |a|
  {
    if a == "" && b == "" then 0
    else if a == "" then -1
    else if b == "" then 1
    else if a[0] != b[0] then (if a[0] < b[0] then -1 else 1)
    else CompareText(a[1..], b[1..])
  }

  /** An identifier of a pre-release. */
  datatype Identifier = Number(value: nat) | Text(text: string)

  /** A parsed version; build metadata takes no part in comparisons. */
  datatype Version = Version(major: nat, minor: nat, patch: nat, pre: seq<Identifier>)

  function CompareNumbers(a: nat, b: nat): int {
    if a < b then -1 else if a == b then 0 else 1
  }

  /** Numeric identifiers compare as numbers and precede the others, which compare as text. */
  function CompareIdentifiers(a: Identifier, b: Identifier): int {
    match (a, b)
    case (Number(m), Number(n)) => CompareNumbers(m, n)
    case (Text(s), Text(u)) => CompareText(s, u)
    case (Number(_), Text(_)) => -1
    case (Text(_), Number(_)) => 1
  }

  /** The first difference decides; a shorter list of identifiers precedes its extensions. */
  function CompareIdentifierLists(a: seq<Identifier>, b: seq<Identifier>): (c: int)
    decreases |a|
  {
    if a == [] && b == [] then 0
    else if a == [] then -1
    else if b == [] then 1
    else
      var c := CompareIdentifiers(a[0], b[0]);
      if c != 0 then c else CompareIdentifierLists(a[1..], b[1..])
  }

  /** A pre-release precedes its release. */
  function ComparePreReleases(a: seq<Identifier>, b: seq<Identifier>): int {
    if a == [] || b == [] then CompareIdentifierLists(b, a) else CompareIdentifierLists(a, b)
  }

  /** Precedence as in section 11 of Semantic Versioning 2.0.0. */
  function Compare(v: Version, w: Version): int {
    if v.major != w.major then CompareNumbers(v.major, w.major)
    else if v.minor != w.minor then CompareNumbers(v.minor, w.minor)
    else if v.patch != w.patch then CompareNumbers(v.patch, w.patch)
    else ComparePreReleases(v.pre, w.pre)
  }

  /** A version as parsed from a tag. */
  datatype Parsed = Parsed(version: Version, original: string)

  /** semverCollection.Less */
  predicate Less(a: Parsed, b: Parsed) {
    var comp := Compare(a.version, b.version);
    if comp != 0 then comp < 0 else CompareText(a.original, b.original) < 0
  }

  // ---------------------------------------------------------------------------------------------
  // They are strict total orders
  // ---------------------------------------------------------------------------------------------

  /** The signs of three comparisons around a triangle are those of an order. */
  predicate Ordered(ab: int, ba: int, bc: int, ac: int) {
    && (ab < 0 <==> ba > 0) && (ab == 0 <==> ba == 0)
    && (ab <= 0 && bc <= 0 ==> ac <= 0)
    && (ab < 0 && bc <= 0 ==> ac < 0)
    && (ab <= 0 && bc < 0 ==> ac < 0)
    && (ab == 0 && bc == 0 ==> ac == 0)
    && (ab == 0 ==> ac == bc || (ac < 0 && bc < 0) || (ac > 0 && bc > 0))
    && (bc == 0 ==> ac == ab || (ac < 0 && ab < 0) || (ac > 0 && ab > 0))
  }

  lemma {:induction false} TextOrdered(a: string, b: string, c: string)
    ensures Ordered(CompareText(a, b), CompareText(b, a), CompareText(b, c), CompareText(a, c))
    decreases |a| + |b| + |c|
  {
    if a != "" && b != "" && c != "" {
      TextOrdered(a[1..], b[1..], c[1..]);
    } else if a != "" && b != "" {
      TextOrdered(a[1..], b[1..], "");
    }
  }

  lemma {:induction false} TextEqual(a: string, b: string)
    ensures CompareText(a, b) == 0 <==> a == b
    decreases |a|
  {
    if a != "" && b != "" {
      TextEqual(a[1..], b[1..]);
      assert a == [a[0]] + a[1..] && b == [b[0]] + b[1..];
    }
  }

  lemma IdentifiersOrdered(a: Identifier, b: Identifier, c: Identifier)
    ensures Ordered(CompareIdentifiers(a, b), CompareIdentifiers(b, a), CompareIdentifiers(b, c),
                    CompareIdentifiers(a, c))
  {
    if a.Text? && b.Text? {
      TextOrdered(a.text, b.text, if c.Text? then c.text else "");
    }
  }

  lemma {:induction false} ListsOrdered(a: seq<Identifier>, b: seq<Identifier>, c: seq<Identifier>)
    ensures Ordered(CompareIdentifierLists(a, b), CompareIdentifierLists(b, a), CompareIdentifierLists(b, c),
                    CompareIdentifierLists(a, c))
    decreases |a| + |b| + |c|
  {
    if a != [] && b != [] {
      IdentifiersOrdered(a[0], b[0], if c != [] then c[0] else b[0]);
      ListsOrdered(a[1..], b[1..], if c != [] then c[1..] else []);
    }
  }

  lemma PreReleasesOrdered(a: seq<Identifier>, b: seq<Identifier>, c: seq<Identifier>)
    ensures Ordered(ComparePreReleases(a, b), ComparePreReleases(b, a), ComparePreReleases(b, c),
                    ComparePreReleases(a, c))
  {
    ListsOrdered(a, b, c);
  }

  lemma VersionsOrdered(a: Version, b: Version, c: Version)
    ensures Ordered(Compare(a, b), Compare(b, a), Compare(b, c), Compare(a, c))
  {
    PreReleasesOrdered(a.pre, b.pre, c.pre);
  }

  /** Less is a strict order in which any two versions with different originals are comparable. */
  lemma LessIsStrictTotal(a: Parsed, b: Parsed, c: Parsed)
    ensures !Less(a, a)
    ensures Less(a, b) && Less(b, c) ==> Less(a, c)
    ensures a.original != b.original ==> (Less(a, b) <==> !Less(b, a))
  {
    VersionsOrdered(a.version, b.version, c.version);
    VersionsOrdered(a.version, a.version, a.version);
    TextOrdered(a.original, b.original, c.original);
    TextEqual(a.original, a.original);
    TextEqual(a.original, b.original);
  }

  lemma {:induction false} ListsEqual(a: seq<Identifier>, b: seq<Identifier>)
    ensures CompareIdentifierLists(a, b) == 0 <==> a == b
    decreases |a|
  {
    if a != [] && b != [] {
      ListsEqual(a[1..], b[1..]);
      assert a == [a[0]] + a[1..] && b == [b[0]] + b[1..];
      if a[0].Text? && b[0].Text? {
        TextEqual(a[0].text, b[0].text);
      }
    }
  }

  /** Only versions that differ in nothing but build metadata have the same precedence. */
  lemma SamePrecedence(v: Version, w: Version)
    ensures Compare(v, w) == 0 <==> v == w
  {
    ListsEqual(v.pre, w.pre);
    ListsEqual(w.pre, v.pre);
  }

  // ---------------------------------------------------------------------------------------------
  // What they mean
  // ---------------------------------------------------------------------------------------------

  /** Two texts agree up to `i`, where the first ends or has the lesser character. */
  predicate TextDiffersAt(a: string, b: string, i: nat) {
    && i <= |a| && i < |b| && a[..i] == b[..i]
    && (i < |a| ==> a[i] < b[i])
  }

  ghost predicate TextBefore(a: string, b: string) {
    exists i: nat :: TextDiffersAt(a, b, i)
  }

  ghost predicate IdentifierBefore(a: Identifier, b: Identifier) {
    match (a, b)
    case (Number(m), Number(n)) => m < n
    case (Text(s), Text(u)) => TextBefore(s, u)
    case (Number(_), Text(_)) => true
    case (Text(_), Number(_)) => false
  }

  ghost predicate ListDiffersAt(a: seq<Identifier>, b: seq<Identifier>, i: nat) {
    && i <= |a| && i < |b| && a[..i] == b[..i]
    && (i < |a| ==> IdentifierBefore(a[i], b[i]))
  }

  ghost predicate ListBefore(a: seq<Identifier>, b: seq<Identifier>) {
    exists i: nat :: ListDiffersAt(a, b, i)
  }

  /** The numbers decide, the first that differs; then the pre-release, which precedes its release. */
  ghost predicate VersionBefore(v: Version, w: Version) {
    || v.major < w.major
    || (v.major == w.major && v.minor < w.minor)
    || (v.major == w.major && v.minor == w.minor && v.patch < w.patch)
    || (&& v.major == w.major && v.minor == w.minor && v.patch == w.patch
        && v.pre != [] && (w.pre == [] || ListBefore(v.pre, w.pre)))
  }

  lemma StartsDiffer<T>(a: seq<T>, b: seq<T>, i: nat)
    requires a != [] && b != [] && a[0] != b[0] && 0 < i <= |a| && i <= |b|
    ensures a[..i] != b[..i]
  {
    assert a[..i][0] == a[0] && b[..i][0] == b[0];
  }

  lemma {:induction false} TextFirstDiffers(a: string, b: string)
    ensures CompareText(a, b) < 0 <==> TextBefore(a, b)
    decreases |a|
  {
    if a == "" || b == "" || a[0] != b[0] {
      if CompareText(a, b) < 0 {
        assert TextDiffersAt(a, b, 0);
      }
      if TextBefore(a, b) {
        var i: nat :| TextDiffersAt(a, b, i);
        if i > 0 && a != "" && b != "" {
          StartsDiffer(a, b, i);
        }
      }
    } else {
      TextFirstDiffers(a[1..], b[1..]);
      if TextBefore(a[1..], b[1..]) {
        var i: nat :| TextDiffersAt(a[1..], b[1..], i);
        TextDiffersLater(a, b, i);
      }
      if TextBefore(a, b) {
        var i: nat :| TextDiffersAt(a, b, i);
        TextDiffersLater(a, b, i - 1);
      }
    }
  }

  lemma TextDiffersLater(a: string, b: string, i: nat)
    requires a != "" && b != "" && a[0] == b[0]
    ensures TextDiffersAt(a[1..], b[1..], i) <==> TextDiffersAt(a, b, i + 1)
  {
    if i + 1 <= |a| && i + 1 <= |b| {
      assert a[..i + 1] == [a[0]] + a[1..][..i] && b[..i + 1] == [b[0]] + b[1..][..i];
    }
  }

  lemma IdentifierPrecedes(a: Identifier, b: Identifier)
    ensures CompareIdentifiers(a, b) < 0 <==> IdentifierBefore(a, b)
    ensures CompareIdentifiers(a, b) == 0 <==> a == b
  {
    if a.Text? && b.Text? {
      TextFirstDiffers(a.text, b.text);
      TextEqual(a.text, b.text);
    }
  }

  lemma {:induction false} ListFirstDiffers(a: seq<Identifier>, b: seq<Identifier>)
    ensures CompareIdentifierLists(a, b) < 0 <==> ListBefore(a, b)
    decreases |a|
  {
    if a == [] || b == [] {
      if a == [] && b != [] {
        assert ListDiffersAt(a, b, 0);
      }
    } else {
      IdentifierPrecedes(a[0], b[0]);
      if a[0] != b[0] {
        assert ListDiffersAt(a, b, 0) <==> IdentifierBefore(a[0], b[0]);
        forall i: nat | 0 < i <= |a| && i <= |b| ensures a[..i] != b[..i] {
          StartsDiffer(a, b, i);
        }
      } else {
        ListFirstDiffers(a[1..], b[1..]);
        IdentifierPrecedes(a[0], a[0]);
        assert !IdentifierBefore(a[0], b[0]);
        if ListBefore(a[1..], b[1..]) {
          var i: nat :| ListDiffersAt(a[1..], b[1..], i);
          ListDiffersLater(a, b, i);
        }
        if ListBefore(a, b) {
          var i: nat :| ListDiffersAt(a, b, i);
          ListDiffersLater(a, b, i - 1);
        }
      }
    }
  }

  lemma ListDiffersLater(a: seq<Identifier>, b: seq<Identifier>, i: nat)
    requires a != [] && b != [] && a[0] == b[0]
    ensures ListDiffersAt(a[1..], b[1..], i) <==> ListDiffersAt(a, b, i + 1)
  {
    if i + 1 <= |a| && i + 1 <= |b| {
      assert a[..i + 1] == [a[0]] + a[1..][..i] && b[..i + 1] == [b[0]] + b[1..][..i];
    }
  }

  /** The comparison of versions goes by the numbers, then by the pre-release. */
  lemma CompareMeans(v: Version, w: Version)
    ensures Compare(v, w) < 0 <==> VersionBefore(v, w)
  {
    ListFirstDiffers(v.pre, w.pre);
    ListFirstDiffers(w.pre, v.pre);
    ListsEqual(v.pre, w.pre);
  }

  // ---------------------------------------------------------------------------------------------
  // Tags
  // ---------------------------------------------------------------------------------------------

  datatype ImageTag = ImageTag(tagName: string, tagDate: int, tagDigest: string, manifestDigest: string,
                               labels: map<string, string>)

  datatype Strategy = SemVer | Alphabetical | NewestBuild | Digest

  /** The parts of the semantic versioning library that are used: parsing versions and constraints. */
  datatype Library = Library(parse: string -> Option<Version>, constraint: string -> Option<Version -> bool>)

  /** The order of a strategy; for semantic versions it is only used on tags that parse. */
  predicate Before(strategy: Strategy, lib: Library, a: ImageTag, b: ImageTag) {
    match strategy
    case SemVer =>
      && lib.parse(a.tagName).Some? && lib.parse(b.tagName).Some?
      && Less(Parsed(lib.parse(a.tagName).value, a.tagName), Parsed(lib.parse(b.tagName).value, b.tagName))
    case NewestBuild =>
      if a.tagDate == b.tagDate then CompareText(a.tagName, b.tagName) < 0 else a.tagDate < b.tagDate
    case _ => CompareText(a.tagName, b.tagName) < 0
  }

  /** The tags a strategy can order. */
  predicate Sortable(strategy: Strategy, lib: Library, a: ImageTag) {
    strategy.SemVer? ==> lib.parse(a.tagName).Some?
  }

  lemma BeforeIsStrictTotal(strategy: Strategy, lib: Library, a: ImageTag, b: ImageTag, c: ImageTag)
    ensures !Before(strategy, lib, a, a)
    ensures Before(strategy, lib, a, b) && Before(strategy, lib, b, c) ==> Before(strategy, lib, a, c)
    ensures Sortable(strategy, lib, a) && Sortable(strategy, lib, b) && a.tagName != b.tagName ==>
              (Before(strategy, lib, a, b) <==> !Before(strategy, lib, b, a))
  {
    TextOrdered(a.tagName, b.tagName, c.tagName);
    TextEqual(a.tagName, a.tagName);
    TextEqual(a.tagName, b.tagName);
    if strategy.SemVer? && lib.parse(a.tagName).Some? && lib.parse(b.tagName).Some? {
      var c' := if lib.parse(c.tagName).Some? then lib.parse(c.tagName).value else lib.parse(b.tagName).value;
      LessIsStrictTotal(Parsed(lib.parse(a.tagName).value, a.tagName), Parsed(lib.parse(b.tagName).value, b.tagName),
                        Parsed(c', c.tagName));
    }
    if strategy.SemVer? && lib.parse(a.tagName).Some? {
      var a' := Parsed(lib.parse(a.tagName).value, a.tagName);
      LessIsStrictTotal(a', a', a');
    }
  }

  /** What comes earlier: the lesser version, the older date or the lesser name; the name decides between equals. */
  ghost predicate Earlier(strategy: Strategy, lib: Library, a: ImageTag, b: ImageTag) {
    match strategy
    case SemVer =>
      && lib.parse(a.tagName).Some? && lib.parse(b.tagName).Some?
      && var v, w := lib.parse(a.tagName).value, lib.parse(b.tagName).value;
         VersionBefore(v, w) || (v == w && TextBefore(a.tagName, b.tagName))
    case NewestBuild => a.tagDate < b.tagDate || (a.tagDate == b.tagDate && TextBefore(a.tagName, b.tagName))
    case Alphabetical => TextBefore(a.tagName, b.tagName)
    case Digest => TextBefore(a.tagName, b.tagName)
  }

  /** Every sort puts the earlier tags first. */
  lemma BeforeIsEarlier(strategy: Strategy, lib: Library, a: ImageTag, b: ImageTag)
    ensures Before(strategy, lib, a, b) <==> Earlier(strategy, lib, a, b)
  {
    TextFirstDiffers(a.tagName, b.tagName);
    if strategy.SemVer? && lib.parse(a.tagName).Some? && lib.parse(b.tagName).Some? {
      CompareMeans(lib.parse(a.tagName).value, lib.parse(b.tagName).value);
      SamePrecedence(lib.parse(a.tagName).value, lib.parse(b.tagName).value);
    }
  }

  // ---------------------------------------------------------------------------------------------
  // Sorting
  // ---------------------------------------------------------------------------------------------

  predicate Increasing(strategy: Strategy, lib: Library, s: seq<ImageTag>) {
    forall i, j :: 0 <= i < j < |s| ==> Before(strategy, lib, s[i], s[j])
  }

  /** Tags that a strategy can order and that have different names. */
  predicate DistinctTags(strategy: Strategy, lib: Library, s: seq<ImageTag>) {
    && (forall i :: 0 <= i < |s| ==> Sortable(strategy, lib, s[i]))
    && (forall i, j :: 0 <= i < j < |s| ==> s[i].tagName != s[j].tagName)
  }

  /** `r` is `s` in the order of the strategy. */
  ghost predicate Sorts(strategy: Strategy, lib: Library, s: seq<ImageTag>, r: seq<ImageTag>) {
    Increasing(strategy, lib, r) && forall x :: x in r <==> x in s
  }

  /** However the tags were arranged and whatever the sorting algorithm, there is only one result. */
  lemma {:induction false} SortIsUnique(strategy: Strategy, lib: Library, r: seq<ImageTag>, r': seq<ImageTag>)
    requires Increasing(strategy, lib, r) && Increasing(strategy, lib, r') && forall x :: x in r <==> x in r'
    ensures r == r'
    decreases |r|
  {
    FirstIsIn(r);
    FirstIsIn(r');
    if r != [] {
      var n, n' := |r| - 1, |r'| - 1;
      LastIsLast(strategy, lib, r, r');
      InitsHaveTheSame(strategy, lib, r, r', r[..n], r'[..n']);
      SortIsUnique(strategy, lib, r[..n], r'[..n']);
      SameInitAndLast(r, r');
    }
  }

  lemma SameInitAndLast(r: seq<ImageTag>, r': seq<ImageTag>)
    requires r != [] && r' != [] && r[..|r| - 1] == r'[..|r'| - 1] && r[|r| - 1] == r'[|r'| - 1]
    ensures r == r'
  {
    assert r == r[..|r| - 1] + [r[|r| - 1]] && r' == r'[..|r'| - 1] + [r'[|r'| - 1]];
  }

  lemma InitsHaveTheSame(strategy: Strategy, lib: Library, r: seq<ImageTag>, r': seq<ImageTag>, init: seq<ImageTag>,
                         init': seq<ImageTag>)
    requires r != [] && r' != [] && Increasing(strategy, lib, r) && Increasing(strategy, lib, r')
    requires (forall x :: x in r <==> x in r') && r[|r| - 1] == r'[|r'| - 1]
    requires init == r[..|r| - 1] && init' == r'[..|r'| - 1]
    ensures forall x :: x in init <==> x in init'
  {
    forall x ensures x in init <==> x in init' {
      NotBeforeItself(strategy, lib, r, x);
      NotBeforeItself(strategy, lib, r', x);
    }
  }

  lemma FirstIsIn(s: seq<ImageTag>)
    ensures s != [] ==> s[0] in s
  {
  }

  lemma LastIsLast(strategy: Strategy, lib: Library, r: seq<ImageTag>, r': seq<ImageTag>)
    requires r != [] && r' != [] && Increasing(strategy, lib, r) && Increasing(strategy, lib, r')
    requires forall x :: x in r <==> x in r'
    ensures r[|r| - 1] == r'[|r'| - 1]
  {
    var a, b := r[|r| - 1], r'[|r'| - 1];
    assert a in r' && b in r;
    BeforeIsStrictTotal(strategy, lib, a, b, a);
  }

  lemma NotBeforeItself(strategy: Strategy, lib: Library, r: seq<ImageTag>, x: ImageTag)
    requires r != [] && Increasing(strategy, lib, r)
    ensures x in r[..|r| - 1] <==> x in r && x != r[|r| - 1]
  {
    BeforeIsStrictTotal(strategy, lib, x, x, x);
    if x in r && x != r[|r| - 1] {
      var i :| 0 <= i < |r| && r[i] == x;
      assert r[..|r| - 1][i] == x;
    }
  }

  /** Puts a tag where it belongs in a sorted list. */
  function Insert(strategy: Strategy, lib: Library, x: ImageTag, s: seq<ImageTag>): (r: seq<ImageTag>)
    ensures forall y :: y in r <==> y == x || y in s
  {
    if s == [] then [x]
    else if Before(strategy, lib, s[|s| - 1], x) then s + [x]
    else Insert(strategy, lib, x, s[..|s| - 1]) + [s[|s| - 1]]
  }

  lemma {:induction false} InsertIncreasing(strategy: Strategy, lib: Library, x: ImageTag, s: seq<ImageTag>)
    requires Increasing(strategy, lib, s) && Sortable(strategy, lib, x)
    requires forall y :: y in s ==> Sortable(strategy, lib, y) && y.tagName != x.tagName
    ensures Increasing(strategy, lib, Insert(strategy, lib, x, s))
    decreases |s|
  {
    if s != [] {
      var n := |s| - 1;
      var last := s[n];
      BeforeIsStrictTotal(strategy, lib, x, last, x);
      if Before(strategy, lib, last, x) {
        forall y | y in s ensures Before(strategy, lib, y, x) {
          BeforeIsStrictTotal(strategy, lib, y, last, x);
        }
        AppendIncreasing(strategy, lib, s, x);
      } else {
        InsertIncreasing(strategy, lib, x, s[..n]);
        AppendIncreasing(strategy, lib, Insert(strategy, lib, x, s[..n]), last);
      }
    }
  }

  lemma AppendIncreasing(strategy: Strategy, lib: Library, s: seq<ImageTag>, x: ImageTag)
    requires Increasing(strategy, lib, s) && forall y :: y in s ==> Before(strategy, lib, y, x)
    ensures Increasing(strategy, lib, s + [x])
  {
  }

  /** The sort of the library, which promises no more than its contract. */
  method Sort(strategy: Strategy, lib: Library, s: seq<ImageTag>) returns (r: seq<ImageTag>)
    requires DistinctTags(strategy, lib, s)
    ensures Sorts(strategy, lib, s, r)
  {
    r := [];
    for i := 0 to |s|
      invariant Increasing(strategy, lib, r) && forall x :: x in r <==> x in s[..i]
    {
      InsertIncreasing(strategy, lib, s[i], r);
      r := Insert(strategy, lib, s[i], r);
      assert s[..i + 1] == s[..i] + [s[i]];
    }
    assert s[..|s|] == s;
  }

  // ---------------------------------------------------------------------------------------------
  // The list of tags and its sorts
  // ---------------------------------------------------------------------------------------------

  /** What a sort by semantic version keeps of a tag. */
  function Relabelled(t: ImageTag): ImageTag {
    t.(manifestDigest := "")
  }

  /** What a sort returns for a tag. */
  function Returned(strategy: Strategy, t: ImageTag): ImageTag {
    if strategy.SemVer? then Relabelled(t) else t
  }

  /** `order` is some order in which a map can be iterated. */
  ghost predicate IterationOrder(items: map<string, ImageTag>, order: seq<string>) {
    && (forall k :: k in order <==> k in items)
    && (forall i, j :: 0 <= i < j < |order| ==> order[i] != order[j])
  }

  ghost predicate NamesAreKeys(items: map<string, ImageTag>) {
    forall k :: k in items ==> items[k].tagName == k
  }

  /** `r` lists the tags the strategy can order, in its order. */
  ghost predicate SortedItems(strategy: Strategy, lib: Library, items: map<string, ImageTag>, r: seq<ImageTag>) {
    && Increasing(strategy, lib, r)
    && forall x :: x in r <==>
                   exists k :: k in items && Sortable(strategy, lib, items[k]) && x == Returned(strategy, items[k])
  }

  ghost predicate EarliestFirst(strategy: Strategy, lib: Library, r: seq<ImageTag>) {
    forall i, j :: 0 <= i < j < |r| ==> Earlier(strategy, lib, r[i], r[j])
  }

  lemma IncreasingIsEarliestFirst(strategy: Strategy, lib: Library, r: seq<ImageTag>)
    ensures Increasing(strategy, lib, r) <==> EarliestFirst(strategy, lib, r)
  {
    forall i, j | 0 <= i < j < |r| ensures Before(strategy, lib, r[i], r[j]) <==> Earlier(strategy, lib, r[i], r[j]) {
      BeforeIsEarlier(strategy, lib, r[i], r[j]);
    }
  }

  class ImageTagList {
    var items: map<string, ImageTag>

    ghost predicate Valid()
      reads this
    {
      NamesAreKeys(items)
    }

    constructor ()
      ensures Valid() && items == map[]
    {
      items := map[];
    }

    method Add(tag: ImageTag)
      requires Valid()
      modifies this
      ensures Valid() && items == old(items)[tag.tagName := tag]
    {
      items := items[tag.tagName := tag];
    }

    /** The loop that copies the map in some order; with semantic versions, the tags that parse. */
    method Collect(strategy: Strategy, lib: Library, order: seq<string>) returns (sil: seq<ImageTag>)
      requires Valid() && IterationOrder(items, order)
      ensures DistinctTags(strategy, lib, sil)
      ensures forall x :: x in sil <==>
                exists k :: k in items && Sortable(strategy, lib, items[k]) && x == Returned(strategy, items[k])
    {
      sil := [];
      for i := 0 to |order|
        invariant DistinctTags(strategy, lib, sil)
        invariant forall x :: x in sil ==> x.tagName in order[..i] && x.tagName in items
        invariant forall x :: x in sil ==> Sortable(strategy, lib, items[x.tagName])
                                           && x == Returned(strategy, items[x.tagName])
        invariant forall j :: 0 <= j < i && Sortable(strategy, lib, items[order[j]]) ==>
                    Returned(strategy, items[order[j]]) in sil
      {
        var v := items[order[i]];
        if strategy == SemVer && lib.parse(v.tagName).None? {
          continue;
        }
        sil := sil + [Returned(strategy, v)];
      }
    }

    method SortAlphabetically(lib: Library, order: seq<string>) returns (sil: seq<ImageTag>)
      requires Valid() && IterationOrder(items, order)
      ensures SortedItems(Alphabetical, lib, items, sil) && EarliestFirst(Alphabetical, lib, sil)
    {
      sil := Collect(Alphabetical, lib, order);
      sil := Sort(Alphabetical, lib, sil);
      IncreasingIsEarliestFirst(Alphabetical, lib, sil);
    }

    method SortByDate(lib: Library, order: seq<string>) returns (sil: seq<ImageTag>)
      requires Valid() && IterationOrder(items, order)
      ensures SortedItems(NewestBuild, lib, items, sil) && EarliestFirst(NewestBuild, lib, sil)
    {
      sil := Collect(NewestBuild, lib, order);
      sil := Sort(NewestBuild, lib, sil);
      IncreasingIsEarliestFirst(NewestBuild, lib, sil);
    }

    method SortBySemVer(lib: Library, order: seq<string>) returns (sil: seq<ImageTag>)
      requires Valid() && IterationOrder(items, order)
      ensures SortedItems(SemVer, lib, items, sil) && EarliestFirst(SemVer, lib, sil)
    {
      sil := Collect(SemVer, lib, order);
      sil := Sort(SemVer, lib, sil);
      IncreasingIsEarliestFirst(SemVer, lib, sil);
    }
  }

  // ---------------------------------------------------------------------------------------------
  // The choice
  // ---------------------------------------------------------------------------------------------

  datatype Choice = NoTag | Chosen(tag: ImageTag) | InvalidConstraint

  datatype VersionConstraint = VersionConstraint(strategy: Strategy, constraint: string)

  /** The constraint handed to the semantic versioning library. */
  function SemVerConstraint(vc: VersionConstraint): string {
    if vc.constraint == "" then "*" else vc.constraint
  }

  /** A tag meets the constraint under its strategy. */
  predicate Eligible(vc: VersionConstraint, lib: Library, t: ImageTag) {
    match vc.strategy
    case SemVer =>
      && lib.parse(t.tagName).Some?
      && lib.constraint(SemVerConstraint(vc)).Some?
      && lib.constraint(SemVerConstraint(vc)).value(lib.parse(t.tagName).value)
    case Digest => t.tagName == vc.constraint
    case _ => true
  }

  /** The newest version: the maximum of the eligible tags, and an error only for a constraint that would be used. */
  ghost predicate IsNewest(vc: VersionConstraint, lib: Library, items: map<string, ImageTag>, c: Choice) {
    if vc.strategy.SemVer? && lib.constraint(SemVerConstraint(vc)).None? &&
      (exists k :: k in items && lib.parse(k).Some?) then
      c.InvalidConstraint?
    else if (forall k :: k in items ==> !Eligible(vc, lib, items[k])) then c.NoTag?
    else
      && c.Chosen?
      && c.tag.tagName in items
      && c.tag == Returned(vc.strategy, items[c.tag.tagName])
      && Eligible(vc, lib, c.tag)
      && forall k :: k in items && Eligible(vc, lib, items[k]) && k != c.tag.tagName ==>
           Before(vc.strategy, lib, items[k], c.tag)
  }

  /** The maximum is unique, so the choice does not depend on the iteration order of the map. */
  lemma NewestIsUnique(vc: VersionConstraint, lib: Library, items: map<string, ImageTag>, c: Choice, c': Choice)
    requires NamesAreKeys(items) && IsNewest(vc, lib, items, c) && IsNewest(vc, lib, items, c')
    ensures c == c'
  {
    if c.Chosen? && c'.Chosen? {
      var a, b := items[c.tag.tagName], items[c'.tag.tagName];
      BeforeIsStrictTotal(vc.strategy, lib, a, b, a);
      BeforeIsStrictTotal(vc.strategy, lib, c.tag, c'.tag, c.tag);
    }
  }

  /** The tag meets the constraint: its version satisfies it, or under the digest strategy its name is it. */
  predicate Meets(vc: VersionConstraint, lib: Library, name: string) {
    && (vc.strategy == SemVer ==>
          var text := if vc.constraint == "" then "*" else vc.constraint;
          lib.parse(name).Some? && lib.constraint(text).Some? && lib.constraint(text).value(lib.parse(name).value))
    && (vc.strategy == Digest ==> name == vc.constraint)
  }

  /** What is chosen meets the constraint, and every other tag that does is earlier; with none, none is chosen. */
  ghost predicate IsLatest(vc: VersionConstraint, lib: Library, items: map<string, ImageTag>, c: Choice) {
    match c
    case Chosen(tag) =>
      && tag.tagName in items && Meets(vc, lib, tag.tagName)
      && tag.tagDate == items[tag.tagName].tagDate && tag.tagDigest == items[tag.tagName].tagDigest
      && tag.labels == items[tag.tagName].labels
      && forall k :: k in items && Meets(vc, lib, k) && k != tag.tagName ==> Earlier(vc.strategy, lib, items[k], tag)
    case NoTag => forall k :: k in items ==> !Meets(vc, lib, k)
    case InvalidConstraint =>
      vc.strategy == SemVer && lib.constraint(if vc.constraint == "" then "*" else vc.constraint).None?
  }

  lemma NewestIsLatest(vc: VersionConstraint, lib: Library, items: map<string, ImageTag>, c: Choice)
    requires NamesAreKeys(items) && IsNewest(vc, lib, items, c)
    ensures IsLatest(vc, lib, items, c)
  {
    forall k | k in items ensures Eligible(vc, lib, items[k]) <==> Meets(vc, lib, k) {
      assert items[k].tagName == k;
    }
    if c.Chosen? {
      forall k | k in items && Meets(vc, lib, k) && k != c.tag.tagName
        ensures Earlier(vc.strategy, lib, items[k], c.tag)
      {
        BeforeIsEarlier(vc.strategy, lib, items[k], c.tag);
      }
    }
  }

  lemma SortsByName(lib: Library, items: map<string, ImageTag>, r: seq<ImageTag>)
    requires SortedItems(Alphabetical, lib, items, r)
    ensures SortedItems(Digest, lib, items, r)
  {
    forall x
      ensures x in r <==> exists k :: k in items && Sortable(Digest, lib, items[k]) && x == Returned(Digest, items[k])
    {
      forall k | k in items
        ensures Sortable(Alphabetical, lib, items[k]) && Sortable(Digest, lib, items[k])
        ensures Returned(Alphabetical, items[k]) == Returned(Digest, items[k])
      {
      }
    }
  }

  /** A tag of the map is available exactly if the strategy can order it. */
  lemma AvailableIsSortable(strategy: Strategy, lib: Library, items: map<string, ImageTag>, r: seq<ImageTag>)
    requires NamesAreKeys(items) && SortedItems(strategy, lib, items, r)
    ensures forall k :: k in items && Sortable(strategy, lib, items[k]) ==> Returned(strategy, items[k]) in r
    ensures forall x :: x in r ==>
                          && x.tagName in items && x == Returned(strategy, items[x.tagName])
                          && Sortable(strategy, lib, items[x.tagName])
  {
  }

  lemma NothingAvailable(vc: VersionConstraint, lib: Library, items: map<string, ImageTag>,
                         availableTags: seq<ImageTag>)
    requires NamesAreKeys(items) && SortedItems(vc.strategy, lib, items, availableTags) && availableTags == []
    ensures IsNewest(vc, lib, items, NoTag)
  {
    AvailableIsSortable(vc.strategy, lib, items, availableTags);
    forall k | k in items ensures !Sortable(vc.strategy, lib, items[k]) {
      assert Returned(vc.strategy, items[k]) !in availableTags;
    }
  }

  /** The last of the sorted eligible tags is the newest. */
  lemma LastIsNewest(vc: VersionConstraint, lib: Library, items: map<string, ImageTag>, availableTags: seq<ImageTag>,
                     considerTags: seq<ImageTag>)
    requires NamesAreKeys(items) && SortedItems(vc.strategy, lib, items, availableTags)
    requires vc.strategy.SemVer? ==> lib.constraint(SemVerConstraint(vc)).Some?
    requires Increasing(vc.strategy, lib, considerTags)
    requires forall x :: x in considerTags <==> x in availableTags && Eligible(vc, lib, x)
    ensures IsNewest(vc, lib, items, if considerTags == [] then NoTag else Chosen(considerTags[|considerTags| - 1]))
  {
    AvailableIsSortable(vc.strategy, lib, items, availableTags);
    forall k | k in items && Eligible(vc, lib, items[k]) ensures Returned(vc.strategy, items[k]) in considerTags {
      assert Eligible(vc, lib, Returned(vc.strategy, items[k]));
    }
    if considerTags != [] {
      var last := considerTags[|considerTags| - 1];
      assert last in considerTags;
      forall k | k in items && Eligible(vc, lib, items[k]) && k != last.tagName
        ensures Before(vc.strategy, lib, items[k], last)
      {
        var x := Returned(vc.strategy, items[k]);
        assert x in considerTags && x != last;
      }
    }
  }

  method GetNewestVersionFromTags(vc: VersionConstraint, lib: Library, tagList: ImageTagList,
                                  order: seq<string>) returns (c: Choice)
    requires tagList.Valid() && IterationOrder(tagList.items, order)
    ensures IsNewest(vc, lib, tagList.items, c) && IsLatest(vc, lib, tagList.items, c)
  {
    c := NewestOfSorted(vc, lib, tagList, order);
    NewestIsLatest(vc, lib, tagList.items, c);
  }

  method NewestOfSorted(vc: VersionConstraint, lib: Library, tagList: ImageTagList, order: seq<string>)
    returns (c: Choice)
    requires tagList.Valid() && IterationOrder(tagList.items, order)
    ensures IsNewest(vc, lib, tagList.items, c)
  {
    var availableTags: seq<ImageTag>;
    match vc.strategy {
      case SemVer => availableTags := tagList.SortBySemVer(lib, order);
      case NewestBuild => availableTags := tagList.SortByDate(lib, order);
      case Alphabetical => availableTags := tagList.SortAlphabetically(lib, order);
      case Digest =>
        availableTags := tagList.SortAlphabetically(lib, order);
        SortsByName(lib, tagList.items, availableTags);
    }
    if |availableTags| == 0 {
      NothingAvailable(vc, lib, tagList.items, availableTags);
      return NoTag;
    }
    if vc.strategy == SemVer && lib.constraint(SemVerConstraint(vc)).None? {
      assert availableTags[0] in availableTags;
      return InvalidConstraint;
    }
    var considerTags: seq<ImageTag> := [];
    for i := 0 to |availableTags|
      invariant forall x :: x in considerTags <==> x in availableTags[..i] && Eligible(vc, lib, x)
      invariant Increasing(vc.strategy, lib, considerTags)
    {
      if !Eligible(vc, lib, availableTags[i]) {
        continue;
      }
      AppendIncreasing(vc.strategy, lib, considerTags, availableTags[i]);
      considerTags := considerTags + [availableTags[i]];
    }
    assert availableTags[..|availableTags|] == availableTags;
    LastIsNewest(vc, lib, tagList.items, availableTags, considerTags);
    if |considerTags| > 0 {
      return Chosen(considerTags[|considerTags| - 1]);
    }
    return NoTag;
  }
}

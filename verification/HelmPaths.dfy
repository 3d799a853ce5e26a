/**
 Which node of a YAML document a key denotes (pkg/argocd/update.go), said by the content of the document: a path leads
 from the root through first entries of mappings and elements of sequences, and its key is spelled with dots, brackets
 and decimal numbers.
 */
module HelmPaths {
  import opened Options
  import opened Strings
  import opened Sequences
  import opened HelmValues

  // ---------------------------------------------------------------------------------------------
  // Paths and how they are spelled
  // ---------------------------------------------------------------------------------------------

  /** One step of a path: to an entry of a mapping, or to an element of the sequence that an entry holds. */
  datatype Part = Entry(name: string) | Element(name: string, index: nat)

  function Spell(part: Part): string {
    match part
    case Entry(name) => name
    case Element(name, index) => name + "[" + Decimal(index) + "]"
  }

  function Spelled(path: seq<Part>): string {
    Join(Map(path, Spell), '.')
  }

  /** The name can be spelled: it has no dot, and an entry's does not look like an element. */
  predicate CanSpell(part: Part) {
    && '.' !in part.name
    && match part
       case Entry(name) => |name| < 2 || name[|name| - 1] != ']' || '\n' in name || '[' !in name[..|name| - 1]
       case Element(name, index) => '\n' !in name && index < 0x8000_0000_0000_0000
  }

  lemma {:induction false} DecimalIsRead(n: nat)
    ensures IsDigits(Decimal(n)) && Digits(Decimal(n)) == n
  {
    DigitIs(n % 10);
    var s := Decimal(n);
    if n >= 10 {
      DecimalIsRead(n / 10);
      assert s[..|s| - 1] == Decimal(n / 10);
    } else {
      assert s[..0] == "";
    }
  }

  /** A decimal number is read as what it says. */
  lemma AtoiOfDecimal(n: nat)
    requires n < 0x8000_0000_0000_0000
    ensures Atoi(Decimal(n)) == Some(n)
  {
    DecimalIsRead(n);
    AtoiOfDigits(Decimal(n), n);
  }

  lemma AtoiOfDigits(s: string, n: nat)
    requires IsDigits(s) && Digits(s) == n < 0x8000_0000_0000_0000
    ensures Atoi(s) == Some(n)
  {
    assert '0' <= s[0] <= '9';
  }

  lemma SegmentIsPart(part: Part)
    requires CanSpell(part)
    ensures ParseSegment(Spell(part)) == (if part.Entry? then Plain(part.name) else Indexed(part.name, part.index))
    ensures '.' !in Spell(part)
  {
    match part
    case Entry(name) =>
      SegmentIsPlain(name);
    case Element(name, index) =>
      DecimalIsRead(index);
      AtoiOfDecimal(index);
      assert forall c :: c in Decimal(index) ==> '0' <= c <= '9';
      SegmentWithBracket(name, Decimal(index));
  }

  lemma SplitSpelled(path: seq<Part>)
    requires path != [] && forall i :: 0 <= i < |path| ==> CanSpell(path[i])
    ensures Split(Spelled(path), '.') == Map(path, Spell)
  {
    forall i | 0 <= i < |path| ensures '.' !in Map(path, Spell)[i] {
      SegmentIsPart(path[i]);
    }
    SplitJoin(Map(path, Spell), '.');
  }

  // ---------------------------------------------------------------------------------------------
  // Where paths lead
  // ---------------------------------------------------------------------------------------------

  /** The first entry of a mapping with that name is at place `i`. */
  ghost predicate FirstAt(t: Tree, m: Node, name: string, i: nat) {
    var items := At(t, m).content;
    && i % 2 == 0 && i + 1 < |items| && At(t, items[i]).value == name
    && forall j :: 0 <= j < i && j % 2 == 0 ==> At(t, items[j]).value != name
  }

  /** What the entry at place `i` holds; an alias stands for its target. */
  ghost function Held(t: Tree, m: Node, i: nat): Node
    requires i + 1 < |At(t, m).content|
  {
    var v := At(t, m).content[i + 1];
    if At(t, v).kind == Alias && At(t, v).alias != null then At(t, v).alias else v
  }

  /** A part leads from a node held by an entry to that node, unless it is a sequence, or to one of its elements. */
  ghost predicate LeadsFrom(t: Tree, c: Node, part: Part, n: Node) {
    match part
    case Entry(_) => At(t, c).kind != Sequence && n == c
    case Element(_, i) => At(t, c).kind == Sequence && i < |At(t, c).content| && n == At(t, c).content[i]
  }

  ghost predicate Leads(t: Tree, m: Node, part: Part, n: Node) {
    exists i :: FirstAt(t, m, part.name, i) && LeadsFrom(t, Held(t, m, i), part, n)
  }

  /** A path leads from a mapping through the given nodes: mappings all, but for a scalar at the end. */
  ghost predicate Follows(t: Tree, m: Node, path: seq<Part>, route: seq<Node>) {
    && path != [] && |route| == |path| && Leads(t, m, path[0], route[0])
    && if |path| == 1 then At(t, route[0]).kind == Scalar
       else At(t, route[0]).kind == Mapping && Follows(t, route[0], path[1..], route[1..])
  }

  /** A literal key leads to a scalar. */
  ghost predicate LiteralLeadsTo(t: Tree, m: Node, key: string, n: Node) {
    At(t, n).kind == Scalar && exists i :: FirstAt(t, m, key, i) && Held(t, m, i) == n
  }

  // ---------------------------------------------------------------------------------------------
  // The program follows them
  // ---------------------------------------------------------------------------------------------

  lemma {:induction false} KeyIndexIs(t: Tree, m: Node, key: string, i: nat, from: nat)
    requires from % 2 == 0 && from <= i && FirstAt(t, m, key, i)
    ensures KeyIndex(t, At(t, m).content, key, from) == Some(i + 1)
    decreases i - from
  {
    if from < i {
      KeyIndexIs(t, m, key, i, from + 2);
    }
  }

  lemma {:induction false} KeyIndexFirst(t: Tree, m: Node, key: string, from: nat)
    requires from % 2 == 0
    ensures var r := KeyIndex(t, At(t, m).content, key, from);
            r.Some? ==>
              && r.value % 2 == 1 && At(t, At(t, m).content[r.value - 1]).value == key
              && forall j :: from <= j < r.value - 1 && j % 2 == 0 ==> At(t, At(t, m).content[j]).value != key
    decreases |At(t, m).content| - from
  {
    if from + 1 < |At(t, m).content| && At(t, At(t, m).content[from]).value != key {
      KeyIndexFirst(t, m, key, from + 2);
    }
  }

  /** findHelmValuesKey finds the first entry. */
  lemma LookupIs(t: Tree, m: Node, key: string, i: nat)
    ensures FirstAt(t, m, key, i) <==> KeyIndex(t, At(t, m).content, key, 0) == Some(i + 1)
  {
    KeyIndexFirst(t, m, key, 0);
    if FirstAt(t, m, key, i) {
      KeyIndexIs(t, m, key, i, 0);
    }
  }

  function SegmentOf(part: Part): Segment {
    if part.Entry? then Plain(part.name) else Indexed(part.name, part.index)
  }

  lemma EnterIs(t: Tree, m: Node, part: Part, n: Node)
    ensures Leads(t, m, part, n) <==> Enter(t, m, SegmentOf(part)) == Into(n)
  {
    var r := KeyIndex(t, At(t, m).content, part.name, 0);
    if r.Some? {
      LookupIs(t, m, part.name, r.value - 1);
    }
    if Leads(t, m, part, n) {
      var i :| FirstAt(t, m, part.name, i) && LeadsFrom(t, Held(t, m, i), part, n);
      LookupIs(t, m, part.name, i);
    }
  }

  lemma WalkFirst(t: Tree, m: Node, path: seq<Part>)
    requires path != [] && CanSpell(path[0])
    ensures Map(path, Spell)[1..] == Map(path[1..], Spell)
    ensures Walk(t, m, Map(path, Spell)) ==
            match Enter(t, m, SegmentOf(path[0]))
            case NotFound => Miss
            case Refused => Miss
            case Into(n) =>
              if |path| == 1 then (if At(t, n).kind == Scalar then Hit(n) else Miss)
              else if At(t, n).kind == Mapping then Walk(t, n, Map(path[1..], Spell)) else Miss
  {
    SegmentIsPart(path[0]);
    assert Map(path, Spell)[1..] == Map(path[1..], Spell);
  }

  lemma {:induction false} WalkFollows(t: Tree, m: Node, path: seq<Part>, route: seq<Node>)
    requires Follows(t, m, path, route) && forall i :: 0 <= i < |path| ==> CanSpell(path[i])
    ensures Walk(t, m, Map(path, Spell)) == Hit(route[|path| - 1])
    decreases |path|
  {
    WalkFirst(t, m, path);
    EnterIs(t, m, path[0], route[0]);
    if |path| > 1 {
      WalkFollows(t, route[0], path[1..], route[1..]);
    }
  }

  lemma {:induction false} RouteIfHit(t: Tree, m: Node, path: seq<Part>) returns (route: seq<Node>)
    requires path != [] && forall i :: 0 <= i < |path| ==> CanSpell(path[i])
    requires Walk(t, m, Map(path, Spell)).Hit?
    ensures Follows(t, m, path, route) && route[|path| - 1] == Walk(t, m, Map(path, Spell)).node
    decreases |path|
  {
    WalkFirst(t, m, path);
    var n := Enter(t, m, SegmentOf(path[0])).node;
    EnterIs(t, m, path[0], n);
    if |path| == 1 {
      route := [n];
    } else {
      var rest := RouteIfHit(t, n, path[1..]);
      route := [n] + rest;
      assert route[1..] == rest;
    }
  }

  /** The mapping at the root of a document, or below the document node. */
  ghost predicate IsRoot(t: Tree, root: Node, m: Node) {
    && At(t, m).kind == Mapping
    && if At(t, root).kind == Document then At(t, root).content != [] && At(t, root).content[0] == m else root == m
  }

  /** A spelled key has no bracket that holds no integer. */
  lemma {:induction false} NeverBad(t: Tree, m: Node, path: seq<Part>)
    requires path != [] && forall i :: 0 <= i < |path| ==> CanSpell(path[i])
    ensures !Walk(t, m, Map(path, Spell)).Bad?
    decreases |path|
  {
    WalkFirst(t, m, path);
    var e := Enter(t, m, SegmentOf(path[0]));
    if |path| > 1 && e.Into? {
      NeverBad(t, e.node, path[1..]);
    }
  }

  lemma LiteralIs(t: Tree, m: Node, key: string, n: Node)
    ensures LiteralLeadsTo(t, m, key, n) <==> LiteralScalar(t, m, key) == Some(n)
  {
    var r := KeyIndex(t, At(t, m).content, key, 0);
    if r.Some? {
      LookupIs(t, m, key, r.value - 1);
    }
    if LiteralLeadsTo(t, m, key, n) {
      var i :| FirstAt(t, m, key, i) && Held(t, m, i) == n;
      LookupIs(t, m, key, i);
    }
  }

  /** A key denotes the scalar its path leads to. */
  lemma PathIsResolved(t: Tree, root: Node, m: Node, path: seq<Part>, route: seq<Node>)
    requires IsRoot(t, root, m) && Follows(t, m, path, route) && forall i :: 0 <= i < |path| ==> CanSpell(path[i])
    ensures Resolve(t, root, Spelled(path)) == Some(route[|path| - 1])
  {
    SplitSpelled(path);
    WalkFollows(t, m, path, route);
  }

  /** If its path leads nowhere, it denotes the scalar of the literal key. */
  lemma LiteralIsResolved(t: Tree, root: Node, m: Node, path: seq<Part>, n: Node)
    requires IsRoot(t, root, m) && path != [] && forall i :: 0 <= i < |path| ==> CanSpell(path[i])
    requires forall route :: !Follows(t, m, path, route)
    ensures Resolve(t, root, Spelled(path)) == Some(n) <==> LiteralLeadsTo(t, m, Spelled(path), n)
  {
    SplitSpelled(path);
    NeverBad(t, m, path);
    if Walk(t, m, Map(path, Spell)).Hit? {
      var route := RouteIfHit(t, m, path);
      assert false;
    }
    LiteralIs(t, m, Spelled(path), n);
  }

  /** Writing goes to the node of a literal key, else to the scalar the path leads to, and changes its text alone. */
  lemma WriteGoesThere(t: Tree, t': Tree, root: Node, m: Node, path: seq<Part>, route: seq<Node>, value: string,
                       written: Node, chain: seq<Node>)
    requires IsRoot(t, root, m) && Follows(t, m, path, route) && forall i :: 0 <= i < |path| ==> CanSpell(path[i])
    requires RootMapping(t, root).Some? && Wrote(t, t', root, Spelled(path), value, written, chain)
    ensures if exists i :: FirstAt(t, m, Spelled(path), i) then
              exists i :: FirstAt(t, m, Spelled(path), i) && written == At(t, m).content[i + 1]
            else written == route[|path| - 1]
    ensures At(t', written).value == value && At(t', written).kind == At(t, written).kind
    ensures At(t', written).content == At(t, written).content
    ensures At(t', written).tag ==
            if exists i :: FirstAt(t, m, Spelled(path), i) then At(t, written).tag else "!!str"
    ensures forall n :: n != written ==> At(t', n) == At(t, n)
  {
    SplitSpelled(path);
    WalkFollows(t, m, path, route);
    WalkAndPlan(t, m, Map(path, Spell));
    var r := KeyIndex(t, At(t, m).content, Spelled(path), 0);
    if r.Some? {
      LookupIs(t, m, Spelled(path), r.value - 1);
    } else {
      forall i: nat ensures !FirstAt(t, m, Spelled(path), i) {
        LookupIs(t, m, Spelled(path), i);
      }
    }
  }

  lemma LeadsOnce(t: Tree, m: Node, part: Part, a: Node, b: Node)
    requires Leads(t, m, part, a) && Leads(t, m, part, b)
    ensures a == b
  {
    EnterIs(t, m, part, a);
    EnterIs(t, m, part, b);
  }

  /** The elements of the sequence that the first entry of a name holds are different nodes. */
  ghost predicate DistinctElements(t: Tree, m: Node, name: string) {
    forall i :: FirstAt(t, m, name, i) ==>
      forall x, y :: 0 <= x < y < |At(t, Held(t, m, i)).content| ==>
        At(t, Held(t, m, i)).content[x] != At(t, Held(t, m, i)).content[y]
  }

  /** Different indices into one sequence of different elements lead to different nodes. */
  lemma DifferentElements(t: Tree, m: Node, name: string, x: nat, y: nat, a: Node, b: Node)
    requires Leads(t, m, Element(name, x), a) && Leads(t, m, Element(name, y), b) && x != y
    requires DistinctElements(t, m, name)
    ensures a != b
  {
    var i :| FirstAt(t, m, name, i) && LeadsFrom(t, Held(t, m, i), Element(name, x), a);
    var j :| FirstAt(t, m, name, j) && LeadsFrom(t, Held(t, m, j), Element(name, y), b);
    LookupIs(t, m, name, i);
    LookupIs(t, m, name, j);
  }

  /** And so do keys that end in them, whatever path comes before. */
  lemma {:induction false} DifferentKeys(t: Tree, m: Node, path: seq<Part>, name: string, x: nat, y: nat,
                                         toX: seq<Node>, toY: seq<Node>)
    requires Follows(t, m, path + [Element(name, x)], toX) && Follows(t, m, path + [Element(name, y)], toY) && x != y
    requires DistinctElements(t, if path == [] then m else toX[|path| - 1], name)
    ensures toX[|path|] != toY[|path|]
    decreases |path|
  {
    if path == [] {
      DifferentElements(t, m, name, x, y, toX[0], toY[0]);
    } else {
      LeadsOnce(t, m, path[0], toX[0], toY[0]);
      assert (path + [Element(name, x)])[1..] == path[1..] + [Element(name, x)];
      assert (path + [Element(name, y)])[1..] == path[1..] + [Element(name, y)];
      DifferentKeys(t, toX[0], path[1..], name, x, y, toX[1..], toY[1..]);
    }
  }
}

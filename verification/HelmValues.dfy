/**
 Reading and writing dotted and indexed keys in a YAML document (pkg/argocd/update.go).

 The document is a graph of mutable nodes. `Tree` is a snapshot of it, and what a key resolves to
 (`Resolve`) and what setting it would do (`Plan`) are functions of a snapshot; `SetHelmValue` is
 the in-place update, proved to realise the plan. The theorems relate the two readings of a key:
 reading tries the nested path first and the literal key second, writing the other way round.
 */
module HelmValues {
  import opened Options
  import opened Strings

  datatype Kind = Zero | Document | Sequence | Mapping | Scalar | Alias

  class Node {
    var kind: Kind
    var value: string
    var tag: string
    var content: seq<Node>
    var alias: Node?
    // Where the value starts in the source text; both count from one, zero for nodes not read from text.
    const line: int
    const column: int

    constructor (kind: Kind, value: string, tag: string, line: int, column: int)
      ensures this.kind == kind && this.value == value && this.tag == tag && content == [] && alias == null
      ensures this.line == line && this.column == column
    {
      this.kind, this.value, this.tag, this.line, this.column := kind, value, tag, line, column;
      content, alias := [], null;
    }
  }

  datatype Data = Data(kind: Kind, value: string, tag: string, content: seq<Node>, alias: Node?)

  /** A snapshot of the nodes of a document. */
  type Tree = map<Node, Data>

  ghost function Snapshot(w: set<Node>): (t: Tree)
    reads w
    ensures t.Keys == w
  {
    map n | n in w :: Data(n.kind, n.value, n.tag, n.content, n.alias)
  }

  /** The data of a node, and those of the zero node for nodes outside the document. */
  ghost function At(t: Tree, n: Node): Data {
    if n in t then t[n] else Data(Zero, "", "", [], null)
  }

  // ---------------------------------------------------------------------------------------------
  // Keys
  // ---------------------------------------------------------------------------------------------

  /** One segment of a dotted key: a name, a name with an index, or a bracket that holds no integer. */
  datatype Segment = Plain(name: string) | Indexed(name: string, id: int) | BadIndex

  predicate IsDigits(s: string) {
    s != "" && forall i :: 0 <= i < |s| ==> '0' <= s[i] <= '9'
  }

  function Digits(s: string): nat
    requires forall i :: 0 <= i < |s| ==> '0' <= s[i] <= '9'
  {
    if s == "" then 0 else 10 * Digits(s[..|s| - 1]) + (s[|s| - 1] as int - '0' as int)
  }

  /** strconv.Atoi: an optional sign, digits, and a value of 64 bits */
  function Atoi(s: string): Option<int> {
    var signed := s != "" && (s[0] == '-' || s[0] == '+');
    var digits := if signed then s[1..] else s;
    if !IsDigits(digits) then None
    else
      var n: int := if signed && s[0] == '-' then 0 - Digits(digits) else Digits(digits);
      if -0x8000_0000_0000_0000 <= n < 0x8000_0000_0000_0000 then Some(n) else None
  }

  /**
   The match against ^(.*)\[(.*)\]$: the first group is greedy, so the bracket is the last one, and
   the dots exclude newlines.
   */
  function ParseSegment(k: string): (s: Segment)
    ensures s.Plain? ==> s.name == k
    ensures s.Indexed? ==> |s.name| < |k|
  {
    if |k| < 2 || k[|k| - 1] != ']' then Plain(k) else SegmentFrom(k, |k| - 1, |k|)
  }

  /**
   The segment whose opening bracket is the last before `open`, once the rest of `k` from `line` on has no newline.
   */
  function SegmentFrom(k: string, open: nat, line: nat): (s: Segment)
    requires 0 <= open < |k| && line <= |k|
    ensures s.Plain? ==> s.name == k
    ensures s.Indexed? ==> |s.name| < |k|
    decreases open + line
  {
    if line > 0 then (if k[line - 1] == '\n' then Plain(k) else SegmentFrom(k, open, line - 1))
    else if open == 0 then Plain(k)
    else if k[open - 1] != '[' then SegmentFrom(k, open - 1, 0)
    else
      var id := Atoi(k[open..|k| - 1]);
      if id.None? then BadIndex else Indexed(k[..open - 1], id.value)
  }

  /** A segment with a bracket at its end, whatever precedes the last opening one. */
  lemma SegmentWithBracket(name: string, id: string)
    requires '\n' !in name && '\n' !in id && '[' !in id
    ensures ParseSegment(name + "[" + id + "]") ==
            if Atoi(id).Some? then Indexed(name, Atoi(id).value) else BadIndex
  {
    var k := name + "[" + id + "]";
    SegmentNoNewline(k, |k| - 1, |k|);
    SegmentOpening(k, name, id, |k| - 1);
  }

  /** Every other segment is plain: one without a bracket at its end, without an opening one, or with a newline. */
  lemma SegmentIsPlain(k: string)
    ensures ParseSegment(k).Plain? <==> |k| < 2 || k[|k| - 1] != ']' || '\n' in k || '[' !in k[..|k| - 1]
  {
    if |k| >= 2 && k[|k| - 1] == ']' {
      SegmentNewline(k, |k| - 1, |k|);
      if '\n' !in k {
        SegmentNoNewline(k, |k| - 1, |k|);
        SegmentBracket(k, |k| - 1);
      }
    }
  }

  lemma {:induction false} SegmentNewline(k: string, open: nat, line: nat)
    requires open < |k| && line <= |k|
    ensures '\n' in k[..line] ==> SegmentFrom(k, open, line) == Plain(k)
    decreases line
  {
    if line > 0 && k[line - 1] != '\n' {
      SegmentNewline(k, open, line - 1);
    }
  }

  lemma {:induction false} SegmentBracket(k: string, open: nat)
    requires open < |k|
    ensures SegmentFrom(k, open, 0).Plain? <==> '[' !in k[..open]
    decreases open
  {
    if open > 0 && k[open - 1] != '[' {
      SegmentBracket(k, open - 1);
    } else if open > 0 {
      assert k[..open][open - 1] == '[';
    }
  }

  lemma {:induction false} SegmentNoNewline(k: string, open: nat, line: nat)
    requires '\n' !in k && open < |k| && line <= |k|
    ensures SegmentFrom(k, open, line) == SegmentFrom(k, open, 0)
    decreases line
  {
    if line > 0 {
      assert k[line - 1] in k;
      SegmentNoNewline(k, open, line - 1);
    }
  }

  lemma {:induction false} SegmentOpening(k: string, name: string, id: string, open: nat)
    requires k == name + "[" + id + "]" && '[' !in id && |name| < open < |k|
    ensures SegmentFrom(k, open, 0) == if Atoi(id).Some? then Indexed(name, Atoi(id).value) else BadIndex
    decreases open
  {
    if open == |name| + 1 {
      assert k[open..|k| - 1] == id && k[..open - 1] == name;
    } else {
      assert k[open - 1] == id[open - 2 - |name|];
      SegmentOpening(k, name, id, open - 1);
    }
  }

  predicate AllPlain(keys: seq<string>) {
    forall i :: 0 <= i < |keys| ==> ParseSegment(keys[i]).Plain?
  }

  predicate NoneBad(keys: seq<string>) {
    forall i :: 0 <= i < |keys| ==> !ParseSegment(keys[i]).BadIndex?
  }

  // ---------------------------------------------------------------------------------------------
  // Where a key leads
  // ---------------------------------------------------------------------------------------------

  /** findHelmValuesKey on the entries of a mapping from `i` on: the index of the first match's value. */
  ghost function KeyIndex(t: Tree, items: seq<Node>, key: string, i: nat): (r: Option<nat>)
    ensures r.Some? ==> i < r.value < |items|
    decreases |items| - i
  {
    if i + 1 >= |items| then None
    else if At(t, items[i]).value == key then Some(i + 1)
    else KeyIndex(t, items, key, i + 2)
  }

  /** Unpacks one level of alias. */
  ghost function Deref(t: Tree, n: Node): Node {
    if At(t, n).kind.Alias? && At(t, n).alias != null then At(t, n).alias else n
  }

  datatype Entered = NotFound | Refused | Into(node: Node)

  /** Following one segment from a mapping. */
  ghost function Enter(t: Tree, m: Node, s: Segment): Entered
    requires !s.BadIndex?
  {
    var idx := KeyIndex(t, At(t, m).content, s.name, 0);
    if idx.None? then NotFound
    else
      var child := Deref(t, At(t, m).content[idx.value]);
      var isSequence := At(t, child).kind.Sequence?;
      match s
      case Plain(_) => if isSequence then Refused else Into(child)
      case Indexed(_, id) =>
        if isSequence && 0 <= id < |At(t, child).content| then Into(At(t, child).content[id]) else Refused
  }

  datatype Walked = Hit(node: Node) | Miss | Bad

  /** The nested reading of a key, from a mapping. */
  ghost function Walk(t: Tree, m: Node, keys: seq<string>): Walked
    requires keys != []
    decreases |keys|
  {
    var s := ParseSegment(keys[0]);
    if s.BadIndex? then Bad
    else
      match Enter(t, m, s)
      case NotFound => Miss
      case Refused => Miss
      case Into(n) =>
        if |keys| == 1 then (if At(t, n).kind.Scalar? then Hit(n) else Miss)
        else if At(t, n).kind.Mapping? then Walk(t, n, keys[1..]) else Miss
  }

  datatype Planned = Overwrite(node: Node) | Create(at: Node, keys: seq<string>) | Fail

  /** What setting a key does when it is not a literal key of the root. */
  ghost function Plan(t: Tree, m: Node, keys: seq<string>): Planned
    requires keys != []
    decreases |keys|
  {
    var s := ParseSegment(keys[0]);
    if s.BadIndex? then Fail
    else
      match Enter(t, m, s)
      case NotFound => Create(m, keys)
      case Refused => Fail
      case Into(n) =>
        if |keys| == 1 then (if At(t, n).kind.Scalar? then Overwrite(n) else Fail)
        else if At(t, n).kind.Mapping? then Plan(t, n, keys[1..]) else Fail
  }

  /** The mapping at the root, below the document node if there is one. */
  ghost function RootMapping(t: Tree, root: Node): Option<Node> {
    var top :=
      if !At(t, root).kind.Document? then Some(root)
      else if At(t, root).content == [] then None
      else Some(At(t, root).content[0]);
    if top.Some? && At(t, top.value).kind.Mapping? then top else None
  }

  /** The value node of a literal key of the root mapping. */
  ghost function Literal(t: Tree, m: Node, key: string): Option<Node> {
    var idx := KeyIndex(t, At(t, m).content, key, 0);
    if idx.None? then None else Some(At(t, m).content[idx.value])
  }

  /** The literal reading of a key. */
  ghost function LiteralScalar(t: Tree, m: Node, key: string): Option<Node> {
    var v := Literal(t, m, key);
    if v.Some? && At(t, Deref(t, v.value)).kind.Scalar? then Some(Deref(t, v.value)) else None
  }

  /** resolveHelmScalarNode: the scalar a key denotes, None for an error. */
  ghost function Resolve(t: Tree, root: Node, key: string): Option<Node> {
    var m := RootMapping(t, root);
    if m.None? then None
    else
      match Walk(t, m.value, Split(key, '.'))
      case Hit(n) => Some(n)
      case Bad => None
      case Miss => LiteralScalar(t, m.value, key)
  }

  /** Reading and planning follow the same path. */
  lemma {:induction false} WalkAndPlan(t: Tree, m: Node, keys: seq<string>)
    requires keys != []
    ensures Walk(t, m, keys).Hit? <==> Plan(t, m, keys).Overwrite?
    ensures Walk(t, m, keys).Hit? ==> Plan(t, m, keys).node == Walk(t, m, keys).node
    ensures Walk(t, m, keys).Hit? ==> At(t, Walk(t, m, keys).node).kind.Scalar?
    ensures Walk(t, m, keys).Bad? ==> Plan(t, m, keys).Fail?
    ensures Plan(t, m, keys).Create? ==> Walk(t, m, keys).Miss? && Plan(t, m, keys).keys != []
    decreases |keys|
  {
    var s := ParseSegment(keys[0]);
    if !s.BadIndex? {
      var e := Enter(t, m, s);
      if e.Into? && |keys| > 1 && At(t, e.node).kind.Mapping? {
        WalkAndPlan(t, e.node, keys[1..]);
      }
    }
  }

  // ---------------------------------------------------------------------------------------------
  // Documents
  // ---------------------------------------------------------------------------------------------

  /** The nodes that serve as keys of mappings. */
  ghost predicate IsKey(t: Tree, n: Node) {
    exists m, i :: m in t && t[m].kind.Mapping? && 0 <= i < |t[m].content| && i % 2 == 0 && t[m].content[i] == n
  }

  /** Every node a node refers to is in the document, and mappings hold keys and values in turn. */
  ghost predicate Closed(t: Tree) {
    forall m :: m in t ==>
      && (forall i :: 0 <= i < |t[m].content| ==> t[m].content[i] in t)
      && (t[m].kind.Alias? ==> t[m].alias != null && t[m].alias in t)
      && (t[m].kind.Mapping? ==> |t[m].content| % 2 == 0)
  }

  /** No key is shared with a value, an element or the target of an alias. */
  ghost predicate KeysApart(t: Tree) {
    forall m :: m in t ==>
      && (t[m].kind.Mapping? ==> forall i :: 0 <= i < |t[m].content| && i % 2 == 1 ==> !IsKey(t, t[m].content[i]))
      && (t[m].kind.Sequence? ==> forall i :: 0 <= i < |t[m].content| ==> !IsKey(t, t[m].content[i]))
      && (t[m].kind.Alias? && t[m].alias != null ==> !IsKey(t, t[m].alias))
  }

  // ---------------------------------------------------------------------------------------------
  // Changing the text of one value changes no path
  // ---------------------------------------------------------------------------------------------

  ghost function WithText(t: Tree, n: Node, value: string, tag: string): Tree
    requires n in t
  {
    t[n := t[n].(value := value, tag := tag)]
  }

  lemma {:induction false} KeyIndexSame(t: Tree, t': Tree, items: seq<Node>, key: string, i: nat)
    requires i % 2 == 0
    requires forall j :: i <= j < |items| && j % 2 == 0 ==> At(t', items[j]).value == At(t, items[j]).value
    ensures KeyIndex(t', items, key, i) == KeyIndex(t, items, key, i)
    decreases |items| - i
  {
    if i + 1 < |items| {
      KeyIndexSame(t, t', items, key, i + 2);
    }
  }

  lemma LookupSame(t: Tree, n: Node, value: string, tag: string, m: Node, key: string)
    requires n in t && !IsKey(t, n) && m in t && t[m].kind.Mapping?
    ensures KeyIndex(WithText(t, n, value, tag), t[m].content, key, 0) == KeyIndex(t, t[m].content, key, 0)
  {
    var t' := WithText(t, n, value, tag);
    forall j | 0 <= j < |t[m].content| && j % 2 == 0
      ensures At(t', t[m].content[j]).value == At(t, t[m].content[j]).value
    {
      assert IsKey(t, t[m].content[j]);
    }
    KeyIndexSame(t, t', t[m].content, key, 0);
  }

  lemma EnterSame(t: Tree, n: Node, value: string, tag: string, m: Node, s: Segment)
    requires n in t && !IsKey(t, n) && m in t && t[m].kind.Mapping? && !s.BadIndex?
    ensures Enter(WithText(t, n, value, tag), m, s) == Enter(t, m, s)
  {
    LookupSame(t, n, value, tag, m, s.name);
  }

  lemma {:induction false} WalkSame(t: Tree, n: Node, value: string, tag: string, m: Node, keys: seq<string>)
    requires n in t && !IsKey(t, n) && At(t, m).kind.Mapping? && keys != []
    ensures Walk(WithText(t, n, value, tag), m, keys) == Walk(t, m, keys)
    decreases |keys|
  {
    var s := ParseSegment(keys[0]);
    if !s.BadIndex? {
      EnterSame(t, n, value, tag, m, s);
      var e := Enter(t, m, s);
      if e.Into? && |keys| > 1 && At(t, e.node).kind.Mapping? {
        WalkSame(t, n, value, tag, e.node, keys[1..]);
      }
    }
  }

  lemma LiteralScalarSame(t: Tree, n: Node, value: string, tag: string, m: Node, key: string)
    requires n in t && !IsKey(t, n) && m in t && t[m].kind.Mapping?
    ensures LiteralScalar(WithText(t, n, value, tag), m, key) == LiteralScalar(t, m, key)
  {
    LookupSame(t, n, value, tag, m, key);
  }

  lemma ResolveSame(t: Tree, n: Node, value: string, tag: string, root: Node, key: string)
    requires n in t && !IsKey(t, n)
    ensures Resolve(WithText(t, n, value, tag), root, key) == Resolve(t, root, key)
  {
    var m := RootMapping(t, root);
    assert RootMapping(WithText(t, n, value, tag), root) == m;
    if m.Some? {
      WalkSame(t, n, value, tag, m.value, Split(key, '.'));
      LiteralScalarSame(t, n, value, tag, m.value, key);
    }
  }

  // ---------------------------------------------------------------------------------------------
  // Creating a path
  // ---------------------------------------------------------------------------------------------

  const EMPTY_MAPPING := Data(Mapping, "", "", [], null)

  function ScalarData(value: string): Data {
    Data(Scalar, value, "!!str", [], null)
  }

  /** What the `i`th created value node holds: the next pair, or `leaf` at the end of the chain. */
  ghost function Link(chain: seq<Node>, leaf: Data, i: nat): Data
    requires 2 * i + 1 < |chain| && |chain| % 2 == 0
  {
    if 2 * i + 3 < |chain| then EMPTY_MAPPING.(content := [chain[2 * i + 2], chain[2 * i + 3]]) else leaf
  }

  ghost predicate LinkAt(t: Tree, names: seq<string>, leaf: Data, chain: seq<Node>, i: nat)
    requires i < |names| && |chain| == 2 * |names|
  {
    At(t, chain[2 * i]) == ScalarData(names[i]) && At(t, chain[2 * i + 1]) == Link(chain, leaf, i)
  }

  /**
   `t'` is `t` with a path of new nodes below the mapping `at`: `chain` holds a key node and a value
   node for every name, and the last value node is `leaf`.
   */
  ghost predicate Grown(t: Tree, t': Tree, at: Node, names: seq<string>, leaf: Data, chain: seq<Node>) {
    && names != [] && |chain| == 2 * |names|
    && at in t && t[at].kind.Mapping?
    && (forall i :: 0 <= i < |chain| ==> chain[i] !in t && chain[i] in t')
    && (forall i, j :: 0 <= i < j < |chain| ==> chain[i] != chain[j])
    && t'.Keys == t.Keys + set n | n in chain
    && (forall n :: n in t && n != at ==> At(t', n) == t[n])
    && At(t', at) == t[at].(content := t[at].content + [chain[0], chain[1]])
    && (forall i :: 0 <= i < |names| ==> LinkAt(t', names, leaf, chain, i))
  }

  /** Appending a pair to a mapping only adds its key, and only when it was missing. */
  lemma {:induction false} KeyIndexAppended(t: Tree, t': Tree, items: seq<Node>, k: Node, v: Node, key: string, i: nat)
    requires i % 2 == 0 && |items| % 2 == 0 && i <= |items|
    requires forall j :: 0 <= j < |items| ==> At(t', items[j]).value == At(t, items[j]).value
    ensures KeyIndex(t', items + [k, v], key, i) ==
            if KeyIndex(t, items, key, i).Some? then KeyIndex(t, items, key, i)
            else if At(t', k).value == key then Some(|items| + 1) else None
    decreases |items| - i
  {
    if i < |items| {
      KeyIndexAppended(t, t', items, k, v, key, i + 2);
    }
  }

  lemma {:induction false} KeyIndexUnchanged(t: Tree, t': Tree, items: seq<Node>, key: string, i: nat)
    requires forall j :: 0 <= j < |items| ==> At(t', items[j]).value == At(t, items[j]).value
    ensures KeyIndex(t', items, key, i) == KeyIndex(t, items, key, i)
    decreases |items| - i
  {
    if i + 1 < |items| {
      KeyIndexUnchanged(t, t', items, key, i + 2);
    }
  }

  /** Looking up a key in the grown document: as before, except for the new key. */
  lemma LookupGrown(t: Tree, t': Tree, at: Node, names: seq<string>, leaf: Data, chain: seq<Node>, m: Node, key: string)
    requires Closed(t) && Grown(t, t', at, names, leaf, chain) && m in t && t[m].kind.Mapping?
    ensures KeyIndex(t', At(t', m).content, key, 0) ==
            if m == at && KeyIndex(t, t[m].content, key, 0).None? && key == names[0] then Some(|t[m].content| + 1)
            else KeyIndex(t, t[m].content, key, 0)
  {
    var items := t[m].content;
    forall j | 0 <= j < |items| ensures At(t', items[j]).value == At(t, items[j]).value {
      assert items[j] in t;
    }
    if m == at {
      assert LinkAt(t', names, leaf, chain, 0);
      KeyIndexAppended(t, t', items, chain[0], chain[1], key, 0);
    } else {
      KeyIndexUnchanged(t, t', items, key, 0);
    }
  }

  lemma DerefGrown(t: Tree, t': Tree, at: Node, names: seq<string>, leaf: Data, chain: seq<Node>, n: Node)
    requires Closed(t) && Grown(t, t', at, names, leaf, chain) && n in t
    ensures var child := Deref(t, n);
            && child in t && Deref(t', n) == child && At(t', child).kind == t[child].kind
            && (t[child].kind.Sequence? ==> At(t', child).content == t[child].content)
            && (t[child].kind.Sequence? ==> forall i :: 0 <= i < |t[child].content| ==> t[child].content[i] in t)
  {
  }

  /** Following a segment in the grown document: as before, except for the new key. */
  lemma EnterGrown(t: Tree, t': Tree, at: Node, names: seq<string>, leaf: Data, chain: seq<Node>, m: Node, s: Segment)
    requires Closed(t) && Grown(t, t', at, names, leaf, chain) && leaf.kind.Scalar?
    requires m in t && t[m].kind.Mapping? && !s.BadIndex?
    ensures Enter(t', m, s) ==
            if m == at && Enter(t, m, s).NotFound? && s.name == names[0] then
              (if s.Plain? then Into(chain[1]) else Refused)
            else Enter(t, m, s)
    ensures Enter(t, m, s).Into? ==> Enter(t, m, s).node in t
  {
    LookupGrown(t, t', at, names, leaf, chain, m, s.name);
    var idx := KeyIndex(t, t[m].content, s.name, 0);
    if idx.Some? {
      DerefGrown(t, t', at, names, leaf, chain, t[m].content[idx.value]);
    } else if m == at && s.name == names[0] {
      assert LinkAt(t', names, leaf, chain, 0);
      assert Deref(t', chain[1]) == chain[1];
    }
  }

  /** Following a segment inside the created path. */
  lemma EnterChain(t': Tree, names: seq<string>, leaf: Data, chain: seq<Node>, i: nat, s: Segment)
    requires |chain| == 2 * |names| && i + 1 < |names| && leaf.kind.Scalar? && !s.BadIndex?
    requires LinkAt(t', names, leaf, chain, i) && LinkAt(t', names, leaf, chain, i + 1)
    ensures Enter(t', chain[2 * i + 1], s) ==
            if s.name != names[i + 1] then NotFound else if s.Plain? then Into(chain[2 * i + 3]) else Refused
  {
    var items := At(t', chain[2 * i + 1]).content;
    assert items == [chain[2 * i + 2], chain[2 * i + 3]];
    assert KeyIndex(t', items, s.name, 2).None?;
    assert Deref(t', chain[2 * i + 3]) == chain[2 * i + 3];
  }

  datatype Followed = Reaches | Stops | Breaks

  /** Following keys along the names of a created path: to its end, astray, or into a bad index. */
  function Follow(names: seq<string>, keys: seq<string>): (f: Followed)
    requires names != [] && keys != []
    decreases |keys|
  {
    var s := ParseSegment(keys[0]);
    if s.BadIndex? then Breaks
    else if s != Plain(names[0]) then Stops
    else if |keys| == 1 || |names| == 1 then (if |keys| == |names| then Reaches else Stops)
    else Follow(names[1..], keys[1..])
  }

  lemma {:induction false} FollowReaches(names: seq<string>, keys: seq<string>)
    requires names != [] && keys != []
    ensures Follow(names, keys).Reaches? <==> keys == names && AllPlain(names)
    ensures NoneBad(keys) ==> !Follow(names, keys).Breaks?
    decreases |keys|
  {
    SplitPlain(keys, names);
    SplitPlain(names, keys);
    if ParseSegment(keys[0]) == Plain(names[0]) && |keys| > 1 && |names| > 1 {
      FollowReaches(names[1..], keys[1..]);
    }
  }

  /** The nested reading ends where following the names of the created path ends. */
  ghost predicate Ends(r: Walked, f: Followed, end: Node) {
    match f
    case Reaches => r == Hit(end)
    case Stops => r == Miss
    case Breaks => r == Bad
  }

  /** One step of the nested reading inside the created path. */
  lemma WalkChainStep(t': Tree, names: seq<string>, leaf: Data, chain: seq<Node>, i: nat, keys: seq<string>)
    requires |chain| == 2 * |names| && i + 1 < |names| && leaf.kind.Scalar? && keys != []
    requires LinkAt(t', names, leaf, chain, i) && LinkAt(t', names, leaf, chain, i + 1)
    ensures var s := ParseSegment(keys[0]);
            Walk(t', chain[2 * i + 1], keys) ==
            if s.BadIndex? then Bad
            else if s != Plain(names[i + 1]) then Miss
            else if |keys| == 1 then (if i + 2 == |names| then Hit(chain[2 * i + 3]) else Miss)
            else if i + 2 < |names| then Walk(t', chain[2 * i + 3], keys[1..]) else Miss
  {
    var s := ParseSegment(keys[0]);
    if !s.BadIndex? {
      EnterChain(t', names, leaf, chain, i, s);
    }
  }

  /** The nested reading from inside the created path. */
  lemma {:induction false} WalkChain(t': Tree, names: seq<string>, leaf: Data, chain: seq<Node>, i: nat,
                                     keys: seq<string>, r: Walked)
    requires |chain| == 2 * |names| && i + 1 < |names| && leaf.kind.Scalar? && keys != []
    requires forall j :: 0 <= j < |names| ==> LinkAt(t', names, leaf, chain, j)
    requires r == Walk(t', chain[2 * i + 1], keys)
    ensures Ends(r, Follow(names[i + 1..], keys), chain[|chain| - 1])
    decreases |keys|
  {
    assert LinkAt(t', names, leaf, chain, i) && LinkAt(t', names, leaf, chain, i + 1);
    WalkChainStep(t', names, leaf, chain, i, keys);
    var rest := names[i + 1..];
    assert rest[0] == names[i + 1] && rest[1..] == names[i + 2..];
    if ParseSegment(keys[0]) == Plain(names[i + 1]) && |keys| > 1 && i + 2 < |names| {
      WalkChain(t', names, leaf, chain, i + 1, keys[1..], Walk(t', chain[2 * i + 3], keys[1..]));
    }
  }

  lemma SplitPlain(keys: seq<string>, names: seq<string>)
    requires keys != [] && names != []
    ensures keys == names <==> keys[0] == names[0] && keys[1..] == names[1..]
    ensures AllPlain(keys) <==> ParseSegment(keys[0]).Plain? && AllPlain(keys[1..])
    ensures NoneBad(keys) <==> !ParseSegment(keys[0]).BadIndex? && NoneBad(keys[1..])
  {
    assert keys == [keys[0]] + keys[1..] && names == [names[0]] + names[1..];
  }

  /** Setting the key would create a path below `at`. */
  ghost predicate CreatesAt(t: Tree, m: Node, keys: seq<string>, at: Node)
    requires keys != []
    ensures CreatesAt(t, m, keys, at) ==> Plan(t, m, keys).Create? && Plan(t, m, keys).keys != []
  {
    WalkAndPlan(t, m, keys);
    Plan(t, m, keys).Create? && Plan(t, m, keys).at == at
  }

  /** The nested reading in the grown document. */
  lemma {:induction false} WalkGrown(t: Tree, t': Tree, at: Node, names: seq<string>, leaf: Data, chain: seq<Node>,
                                     m: Node, keys: seq<string>)
    requires Closed(t) && Grown(t, t', at, names, leaf, chain) && leaf.kind.Scalar?
    requires m in t && t[m].kind.Mapping? && keys != []
    ensures var r, r' := Walk(t, m, keys), Walk(t', m, keys);
            && (!r.Miss? ==> r' == r)
            && (r.Miss? && !CreatesAt(t, m, keys, at) ==> r'.Miss?)
            && (r.Miss? && CreatesAt(t, m, keys, at) ==>
                  Ends(r', Follow(names, Plan(t, m, keys).keys), chain[|chain| - 1]))
    decreases |keys|
  {
    var s := ParseSegment(keys[0]);
    if !s.BadIndex? {
      EnterGrown(t, t', at, names, leaf, chain, m, s);
      var e := Enter(t, m, s);
      if e.Into? {
        if |keys| > 1 && At(t, e.node).kind.Mapping? {
          WalkGrown(t, t', at, names, leaf, chain, e.node, keys[1..]);
        }
      } else if e.NotFound? {
        WalkAtNewKey(t, t', at, names, leaf, chain, m, keys);
      }
    }
  }

  lemma WalkNewStep(t: Tree, t': Tree, at: Node, names: seq<string>, leaf: Data, chain: seq<Node>, m: Node,
                    keys: seq<string>)
    requires Closed(t) && Grown(t, t', at, names, leaf, chain) && leaf.kind.Scalar?
    requires m in t && t[m].kind.Mapping? && keys != []
    requires !ParseSegment(keys[0]).BadIndex? && Enter(t, m, ParseSegment(keys[0])).NotFound?
    ensures Walk(t', m, keys) ==
            if m != at || ParseSegment(keys[0]) != Plain(names[0]) then Miss
            else if |keys| == 1 then (if |names| == 1 then Hit(chain[1]) else Miss)
            else if |names| > 1 then Walk(t', chain[1], keys[1..]) else Miss
  {
    EnterGrown(t, t', at, names, leaf, chain, m, ParseSegment(keys[0]));
    assert LinkAt(t', names, leaf, chain, 0);
  }

  /** The nested reading where it used to stop for want of a key. */
  lemma WalkAtNewKey(t: Tree, t': Tree, at: Node, names: seq<string>, leaf: Data, chain: seq<Node>, m: Node,
                     keys: seq<string>)
    requires Closed(t) && Grown(t, t', at, names, leaf, chain) && leaf.kind.Scalar?
    requires m in t && t[m].kind.Mapping? && keys != []
    requires !ParseSegment(keys[0]).BadIndex? && Enter(t, m, ParseSegment(keys[0])).NotFound?
    ensures var r' := Walk(t', m, keys);
            && (m != at ==> r'.Miss?)
            && (m == at ==> Ends(r', Follow(names, keys), chain[|chain| - 1]))
  {
    WalkNewStep(t, t', at, names, leaf, chain, m, keys);
    if m == at && ParseSegment(keys[0]) == Plain(names[0]) && |keys| > 1 && |names| > 1 {
      WalkChain(t', names, leaf, chain, 0, keys[1..], Walk(t', chain[1], keys[1..]));
    }
  }

  lemma LiteralScalarGrown(t: Tree, t': Tree, at: Node, names: seq<string>, leaf: Data, chain: seq<Node>, m: Node,
                           key: string)
    requires Closed(t) && Grown(t, t', at, names, leaf, chain) && m in t && t[m].kind.Mapping?
    ensures Literal(t, m, key).Some? ==> LiteralScalar(t', m, key) == LiteralScalar(t, m, key)
    ensures Literal(t, m, key).None? && !(m == at && key == names[0]) ==> LiteralScalar(t', m, key).None?
    ensures Literal(t, m, key).None? && m == at && key == names[0] && |names| == 1 && leaf.kind.Scalar? ==>
              LiteralScalar(t', m, key) == Some(chain[1])
  {
    LookupGrown(t, t', at, names, leaf, chain, m, key);
    assert LinkAt(t', names, leaf, chain, 0);
    var idx := KeyIndex(t, t[m].content, key, 0);
    if idx.Some? {
      var v := t[m].content[idx.value];
      assert v in t && Deref(t, v) in t && Deref(t', v) == Deref(t, v);
    }
  }

  lemma RootGrown(t: Tree, t': Tree, at: Node, names: seq<string>, leaf: Data, chain: seq<Node>, root: Node)
    requires Closed(t) && Grown(t, t', at, names, leaf, chain) && root in t
    ensures RootMapping(t', root) == RootMapping(t, root)
  {
    if t[root].kind.Document? && t[root].content != [] {
      assert t[root].content[0] in t;
    }
  }

  // ---------------------------------------------------------------------------------------------
  // Reading back what was written
  // ---------------------------------------------------------------------------------------------

  /** A document setHelmValue and getHelmValue can work on. */
  ghost predicate ValidDocument(t: Tree, root: Node) {
    Closed(t) && KeysApart(t) && root in t && RootMapping(t, root).Some?
  }

  /**
   `t'` is what a successful setHelmValue makes of `t`; `written` is the node that holds the value and
   `chain` the nodes created for it, if any.
   */
  ghost predicate Wrote(t: Tree, t': Tree, root: Node, key: string, value: string, written: Node, chain: seq<Node>)
    requires RootMapping(t, root).Some?
  {
    var m := RootMapping(t, root).value;
    if Literal(t, m, key).Some? then
      written == Literal(t, m, key).value && written in t && t' == WithText(t, written, value, t[written].tag)
    else
      match Plan(t, m, Split(key, '.'))
      case Overwrite(n) => written == n && n in t && t' == WithText(t, n, value, "!!str")
      case Create(at, names) =>
        && NoneBad(names)
        && Grown(t, t', at, names, ScalarData(value), chain)
        && written == chain[|chain| - 1]
      case Fail => false
  }

  /**
   When a key reads back as written: a literal key must not be shadowed by a nested path and must hold
   a scalar, and a path must be created without brackets unless the whole key is one segment.
   */
  ghost predicate ReadsBack(t: Tree, m: Node, key: string) {
    var keys := Split(key, '.');
    var v := Literal(t, m, key);
    if v.Some? then
      Walk(t, m, keys) == Hit(v.value) || (Walk(t, m, keys).Miss? && At(t, v.value).kind.Scalar?)
    else
      Plan(t, m, keys).Create? ==> AllPlain(Plan(t, m, keys).keys) || |keys| == 1
  }

  lemma LiteralIsNoKey(t: Tree, root: Node, key: string)
    requires ValidDocument(t, root) && Literal(t, RootMapping(t, root).value, key).Some?
    ensures var v := Literal(t, RootMapping(t, root).value, key).value;
            v in t && !IsKey(t, v)
  {
    var m := RootMapping(t, root).value;
    KeyIndexOdd(t, t[m].content, key, 0);
  }

  lemma {:induction false} KeyIndexOdd(t: Tree, items: seq<Node>, key: string, i: nat)
    requires i % 2 == 0
    ensures KeyIndex(t, items, key, i).Some? ==> KeyIndex(t, items, key, i).value % 2 == 1
    decreases |items| - i
  {
    if i + 1 < |items| {
      KeyIndexOdd(t, items, key, i + 2);
    }
  }

  lemma EnterNoKey(t: Tree, m: Node, s: Segment)
    requires Closed(t) && KeysApart(t) && m in t && t[m].kind.Mapping? && !s.BadIndex?
    ensures Enter(t, m, s).Into? ==> Enter(t, m, s).node in t && !IsKey(t, Enter(t, m, s).node)
  {
    KeyIndexOdd(t, t[m].content, s.name, 0);
    var idx := KeyIndex(t, t[m].content, s.name, 0);
    if idx.Some? {
      var v := t[m].content[idx.value];
      assert v in t && !IsKey(t, v);
      assert Deref(t, v) in t && !IsKey(t, Deref(t, v));
    }
  }

  /** The nodes a plan names belong to the document. */
  lemma {:induction false} PlanStays(t: Tree, m: Node, keys: seq<string>)
    requires Closed(t) && KeysApart(t) && m in t && t[m].kind.Mapping? && keys != []
    ensures Plan(t, m, keys).Overwrite? ==> Plan(t, m, keys).node in t && !IsKey(t, Plan(t, m, keys).node)
    ensures Plan(t, m, keys).Create? ==> Plan(t, m, keys).at in t && t[Plan(t, m, keys).at].kind.Mapping?
    decreases |keys|
  {
    var s := ParseSegment(keys[0]);
    if !s.BadIndex? {
      EnterNoKey(t, m, s);
      var e := Enter(t, m, s);
      if e.Into? && |keys| > 1 && At(t, e.node).kind.Mapping? {
        PlanStays(t, e.node, keys[1..]);
      }
    }
  }

  /** The path a plan creates is the end of the key. */
  lemma {:induction false} PlanSuffix(t: Tree, m: Node, keys: seq<string>, p: Planned)
    requires keys != [] && p == Plan(t, m, keys) && p.Create?
    ensures 0 < |p.keys| <= |keys| && p.keys == keys[|keys| - |p.keys|..]
    ensures |keys| == 1 ==> p.at == m
    decreases |keys|
  {
    var s := ParseSegment(keys[0]);
    var e := Enter(t, m, s);
    if e.Into? {
      PlanSuffix(t, e.node, keys[1..], p);
    }
  }

  /** getHelmValue after setHelmValue finds the node that was written, exactly if the key reads back. */
  lemma GetAfterSet(t: Tree, t': Tree, root: Node, key: string, value: string, written: Node, chain: seq<Node>)
    requires ValidDocument(t, root) && Wrote(t, t', root, key, value, written, chain)
    ensures At(t', written).value == value
    ensures Resolve(t', root, key) == Some(written) <==> ReadsBack(t, RootMapping(t, root).value, key)
  {
    var m, keys := RootMapping(t, root).value, Split(key, '.');
    if Literal(t, m, key).Some? {
      LiteralIsNoKey(t, root, key);
      ResolveSame(t, written, value, t[written].tag, root, key);
    } else {
      WalkAndPlan(t, m, keys);
      PlanStays(t, m, keys);
      var p := Plan(t, m, keys);
      if p.Overwrite? {
        ResolveSame(t, written, value, "!!str", root, key);
      } else {
        assert LinkAt(t', p.keys, ScalarData(value), chain, |p.keys| - 1);
        GetAfterCreate(t, t', root, m, p.at, p.keys, ScalarData(value), chain, key);
      }
    }
  }

  lemma GetAfterCreate(t: Tree, t': Tree, root: Node, m: Node, at: Node, names: seq<string>, leaf: Data,
                       chain: seq<Node>, key: string)
    requires Closed(t) && Grown(t, t', at, names, leaf, chain) && leaf.kind.Scalar?
    requires root in t && m in t && RootMapping(t, root) == Some(m) && Literal(t, m, key).None?
    requires Plan(t, m, Split(key, '.')) == Create(at, names)
    ensures Resolve(t', root, key) == Some(chain[|chain| - 1]) <==> AllPlain(names) || |Split(key, '.')| == 1
  {
    var end, keys, plain := chain[|chain| - 1], Split(key, '.'), AllPlain(names);
    assert RootMapping(t', root) == Some(m) by {
      RootGrown(t, t', at, names, leaf, chain, root);
    }
    var r := Walk(t', m, keys);
    assert (r == Hit(end) <==> plain) && (!plain ==> !r.Hit?) && (|keys| == 1 ==> !r.Bad?) by {
      WalkOwnPath(t, t', at, names, leaf, chain, m, keys);
    }
    assert LiteralScalar(t', m, key) == if |keys| == 1 then Some(end) else None by {
      LiteralAfterCreate(t, t', at, names, leaf, chain, m, key);
    }
    ResolvesTo(t', root, m, key, end, plain);
  }

  lemma ResolvesTo(t: Tree, root: Node, m: Node, key: string, end: Node, plain: bool)
    requires RootMapping(t, root) == Some(m)
    requires Walk(t, m, Split(key, '.')) == Hit(end) <==> plain
    requires !plain ==> !Walk(t, m, Split(key, '.')).Hit?
    requires |Split(key, '.')| == 1 ==> !Walk(t, m, Split(key, '.')).Bad?
    requires LiteralScalar(t, m, key) == if |Split(key, '.')| == 1 then Some(end) else None
    ensures Resolve(t, root, key) == Some(end) <==> plain || |Split(key, '.')| == 1
  {
  }

  lemma WalkOwnPath(t: Tree, t': Tree, at: Node, names: seq<string>, leaf: Data, chain: seq<Node>, m: Node,
                    keys: seq<string>)
    requires Closed(t) && Grown(t, t', at, names, leaf, chain) && leaf.kind.Scalar?
    requires m in t && t[m].kind.Mapping? && keys != [] && Plan(t, m, keys) == Create(at, names)
    ensures Walk(t', m, keys) == Hit(chain[|chain| - 1]) <==> AllPlain(names)
    ensures !AllPlain(names) ==> !Walk(t', m, keys).Hit?
    ensures |keys| == 1 ==> !Walk(t', m, keys).Bad?
  {
    WalkAndPlan(t, m, keys);
    WalkGrown(t, t', at, names, leaf, chain, m, keys);
    FollowReaches(names, names);
  }

  lemma LiteralAfterCreate(t: Tree, t': Tree, at: Node, names: seq<string>, leaf: Data, chain: seq<Node>, m: Node,
                           key: string)
    requires Closed(t) && Grown(t, t', at, names, leaf, chain) && leaf.kind.Scalar?
    requires m in t && t[m].kind.Mapping? && Literal(t, m, key).None?
    requires Plan(t, m, Split(key, '.')) == Create(at, names)
    ensures LiteralScalar(t', m, key) == if |Split(key, '.')| == 1 then Some(chain[1]) else None
    ensures |Split(key, '.')| == 1 ==> |names| == 1
  {
    var keys := Split(key, '.');
    PlanSuffix(t, m, keys, Create(at, names));
    LiteralScalarGrown(t, t', at, names, leaf, chain, m, key);
    if |keys| == 1 {
      SplitParts(key, '.');
      assert names == keys && keys[0] == key;
    } else {
      SegmentIsNotKey(key, |keys| - |names|);
    }
  }

  /** A segment of a key with several segments is not the whole key. */
  lemma SegmentIsNotKey(key: string, i: nat)
    requires |Split(key, '.')| > 1 && i < |Split(key, '.')|
    ensures Split(key, '.')[i] != key
  {
    SplitParts(key, '.');
    CutParts(key, '.');
  }

  // ---------------------------------------------------------------------------------------------
  // What happens to the other keys
  // ---------------------------------------------------------------------------------------------

  /** Setting `key` creates a path that takes the nested reading of `other` away from its literal one. */
  ghost predicate Diverts(t: Tree, m: Node, key: string, other: string) {
    var mine := Plan(t, m, Split(key, '.'));
    && Literal(t, m, key).None? && mine.Create? && mine.keys != []
    && CreatesAt(t, m, Split(other, '.'), mine.at)
    && !Follow(mine.keys, Plan(t, m, Split(other, '.')).keys).Stops?
  }

  /** The scalar a key resolves to is a node of the document. */
  lemma ResolveStays(t: Tree, root: Node, key: string)
    requires ValidDocument(t, root)
    ensures Resolve(t, root, key).Some? ==>
              Resolve(t, root, key).value in t && At(t, Resolve(t, root, key).value).kind.Scalar?
  {
    var m, keys := RootMapping(t, root).value, Split(key, '.');
    WalkAndPlan(t, m, keys);
    PlanStays(t, m, keys);
  }

  /** Every key that resolved to another node keeps its node and its text, unless the new path diverts it. */
  lemma OthersKeep(t: Tree, t': Tree, root: Node, key: string, value: string, written: Node, chain: seq<Node>,
                   other: string)
    requires ValidDocument(t, root) && Wrote(t, t', root, key, value, written, chain)
    requires Resolve(t, root, other).Some? && Resolve(t, root, other).value != written
    ensures var n := Resolve(t, root, other).value;
            && At(t', n) == At(t, n)
            && (Resolve(t', root, other) == Some(n) <==> !Diverts(t, RootMapping(t, root).value, key, other))
  {
    var m, keys := RootMapping(t, root).value, Split(key, '.');
    ResolveStays(t, root, other);
    if Literal(t, m, key).Some? {
      LiteralIsNoKey(t, root, key);
      ResolveSame(t, written, value, t[written].tag, root, other);
    } else {
      PlanStays(t, m, keys);
      var p := Plan(t, m, keys);
      if p.Overwrite? {
        ResolveSame(t, written, value, "!!str", root, other);
      } else {
        OthersAfterCreate(t, t', root, p.at, p.keys, ScalarData(value), chain, other);
      }
    }
  }

  lemma OthersAfterCreate(t: Tree, t': Tree, root: Node, at: Node, names: seq<string>, leaf: Data, chain: seq<Node>,
                          other: string)
    requires ValidDocument(t, root) && Grown(t, t', at, names, leaf, chain) && leaf.kind.Scalar?
    requires Resolve(t, root, other).Some?
    ensures var m, keys := RootMapping(t, root).value, Split(other, '.');
            Resolve(t', root, other) == Resolve(t, root, other) <==>
            !(CreatesAt(t, m, keys, at) && !Follow(names, Plan(t, m, keys).keys).Stops?)
  {
    var m, keys := RootMapping(t, root).value, Split(other, '.');
    ResolveStays(t, root, other);
    RootGrown(t, t', at, names, leaf, chain, root);
    WalkAndPlan(t, m, keys);
    WalkGrown(t, t', at, names, leaf, chain, m, keys);
    LiteralScalarGrown(t, t', at, names, leaf, chain, m, other);
    assert chain[|chain| - 1] !in t;
  }

  // ---------------------------------------------------------------------------------------------
  // The operations on the nodes
  // ---------------------------------------------------------------------------------------------

  method FindHelmValuesKey(m: Node, key: string, ghost w: set<Node>) returns (idx: int, found: bool)
    requires m in w && |m.content| % 2 == 0 && forall i :: 0 <= i < |m.content| ==> m.content[i] in w
    ensures KeyIndex(Snapshot(w), m.content, key, 0) == if found then Some(idx) else None
    ensures if found then 0 < idx < |m.content| else idx == -1
  {
    ghost var t := Snapshot(w);
    for i := 0 to |m.content|
      invariant KeyIndex(t, m.content, key, 0) == KeyIndex(t, m.content, key, i + i % 2)
    {
      if i % 2 == 0 && m.content[i].value == key {
        return i + 1, true;
      }
    }
    return -1, false;
  }

  /** The node a node stands for: itself, or the target of an alias. */
  method Unalias(n: Node, ghost w: set<Node>) returns (r: Node)
    requires n in w && (n.kind.Alias? ==> n.alias != null && n.alias in w)
    ensures r == Deref(Snapshot(w), n) && r in w
  {
    r := n;
    if n.kind.Alias? {
      r := n.alias;
    }
  }

  /** The part of the two navigation loops that looks up one segment. */
  method EnterSegment(m: Node, s: Segment, ghost w: set<Node>) returns (e: Entered)
    requires Closed(Snapshot(w)) && m in w && m.kind.Mapping? && !s.BadIndex?
    ensures e == Enter(Snapshot(w), m, s)
    ensures e.Into? ==> e.node in w
  {
    ghost var t := Snapshot(w);
    assert forall j :: 0 <= j < |m.content| ==> t[m].content[j] in t;
    var idx, found := FindHelmValuesKey(m, s.name, w);
    if !found {
      return NotFound;
    }
    assert t[m].content[idx] in t;
    var node := Unalias(m.content[idx], w);
    if s.Indexed? {
      if !node.kind.Sequence? || s.id < 0 || s.id >= |node.content| {
        return Refused;
      }
      assert t[node].content[s.id] in t;
      return Into(node.content[s.id]);
    }
    if node.kind.Sequence? {
      return Refused;
    }
    return Into(node);
  }

  /** The loop of resolveHelmScalarNode. */
  method WalkPath(current: Node, keys: seq<string>, ghost w: set<Node>) returns (r: Walked)
    requires Closed(Snapshot(w)) && current in w && current.kind.Mapping? && keys != []
    ensures r == Walk(Snapshot(w), current, keys)
  {
    ghost var t := Snapshot(w);
    var node := current;
    for i := 0 to |keys|
      invariant i < |keys| && node in w && node.kind.Mapping? && Walk(t, current, keys) == Walk(t, node, keys[i..])
    {
      ghost var rest := keys[i..];
      assert rest[0] == keys[i] && rest[1..] == keys[i + 1..];
      var s := ParseSegment(keys[i]);
      if s.BadIndex? {
        return Bad;
      }
      var e := EnterSegment(node, s, w);
      if !e.Into? {
        return Miss;
      }
      node := e.node;
      if i == |keys| - 1 {
        return if node.kind.Scalar? then Hit(node) else Miss;
      } else if !node.kind.Mapping? {
        return Miss;
      }
    }
  }

  /** resolveHelmScalarNode; None stands for an error. */
  method ResolveHelmScalarNode(values: Node, key: string, ghost w: set<Node>) returns (r: Option<Node>)
    requires Closed(Snapshot(w)) && values in w
    ensures r == Resolve(Snapshot(w), values, key)
  {
    ghost var t := Snapshot(w);
    var current := values;
    if current.kind.Document? {
      if |current.content| == 0 {
        return None;
      }
      assert t[current].content[0] in t;
      current := current.content[0];
    }
    if !current.kind.Mapping? {
      return None;
    }
    assert RootMapping(t, values) == Some(current);
    var nested := WalkPath(current, Split(key, '.'), w);
    if nested.Hit? {
      return Some(nested.node);
    } else if nested.Bad? {
      return None;
    }
    assert forall j :: 0 <= j < |current.content| ==> t[current].content[j] in t;
    var idx, found := FindHelmValuesKey(current, key, w);
    if found {
      assert t[current].content[idx] in t;
      var valueNode := Unalias(current.content[idx], w);
      return if valueNode.kind.Scalar? then Some(valueNode) else None;
    }
    return None;
  }

  method GetHelmValue(values: Node, key: string, ghost w: set<Node>) returns (r: Option<string>)
    requires Closed(Snapshot(w)) && values in w
    ensures r.Some? <==> Resolve(Snapshot(w), values, key).Some?
    ensures r.Some? ==> r.value == Resolve(Snapshot(w), values, key).value.value
  {
    var node := ResolveHelmScalarNode(values, key, w);
    return if node.None? then None else Some(node.value.value);
  }

  // ---------------------------------------------------------------------------------------------
  // Growing a path step by step
  // ---------------------------------------------------------------------------------------------

  /** A new key node and a new value node at the end of a mapping. */
  ghost function AddPair(t: Tree, m: Node, k: Node, v: Node, name: string, leaf: Data): Tree
    requires m in t
  {
    t[m := t[m].(content := t[m].content + [k, v])][k := ScalarData(name)][v := leaf]
  }

  lemma GrownFirst(t: Tree, at: Node, k: Node, v: Node, name: string, leaf: Data)
    requires at in t && t[at].kind.Mapping? && k !in t && v !in t && k != v
    ensures Grown(t, AddPair(t, at, k, v, name, leaf), at, [name], leaf, [k, v])
  {
    var t' := AddPair(t, at, k, v, name, leaf);
    assert LinkAt(t', [name], leaf, [k, v], 0);
    assert (set n | n in [k, v]) == {k, v};
    assert t'.Keys == t.Keys + {k, v};
  }

  lemma GrownMore(t: Tree, t': Tree, at: Node, names: seq<string>, chain: seq<Node>, k: Node, v: Node, name: string,
                  leaf: Data)
    requires Grown(t, t', at, names, EMPTY_MAPPING, chain)
    requires k !in t' && v !in t' && k != v
    ensures Grown(t, AddPair(t', chain[|chain| - 1], k, v, name, leaf), at, names + [name], leaf, chain + [k, v])
  {
    var end := chain[|chain| - 1];
    var t'' := AddPair(t', end, k, v, name, leaf);
    var names', chain' := names + [name], chain + [k, v];
    forall i | 0 <= i < |names'| ensures LinkAt(t'', names', leaf, chain', i) {
      GrownLink(t, t', at, names, chain, k, v, name, leaf, i);
    }
    GrownKeys(t, t', at, names, chain, k, v, name, leaf);
  }

  lemma GrownKeys(t: Tree, t': Tree, at: Node, names: seq<string>, chain: seq<Node>, k: Node, v: Node, name: string,
                  leaf: Data)
    requires Grown(t, t', at, names, EMPTY_MAPPING, chain)
    ensures var t'' := AddPair(t', chain[|chain| - 1], k, v, name, leaf);
            t''.Keys == t.Keys + set n | n in chain + [k, v]
  {
  }

  lemma GrownLink(t: Tree, t': Tree, at: Node, names: seq<string>, chain: seq<Node>, k: Node, v: Node, name: string,
                  leaf: Data, i: nat)
    requires Grown(t, t', at, names, EMPTY_MAPPING, chain) && i <= |names|
    requires k !in t' && v !in t' && k != v
    ensures LinkAt(AddPair(t', chain[|chain| - 1], k, v, name, leaf), names + [name], leaf, chain + [k, v], i)
  {
    if i < |names| {
      assert LinkAt(t', names, EMPTY_MAPPING, chain, i);
      assert chain[2 * i] in t' && chain[2 * i + 1] in t';
    }
  }

  /** A grown document is still one. */
  lemma GrownClosed(t: Tree, t': Tree, at: Node, names: seq<string>, leaf: Data, chain: seq<Node>)
    requires Closed(t) && Grown(t, t', at, names, leaf, chain) && leaf.content == [] && !leaf.kind.Alias?
    ensures Closed(t')
  {
    forall m | m in t'
      ensures forall i :: 0 <= i < |t'[m].content| ==> t'[m].content[i] in t'
      ensures t'[m].kind.Alias? ==> t'[m].alias != null && t'[m].alias in t'
      ensures t'[m].kind.Mapping? ==> |t'[m].content| % 2 == 0
    {
      if m in t {
        OldNodeClosed(t, t', at, names, leaf, chain, m);
      } else {
        NewNodeClosed(t, t', at, names, leaf, chain, m);
      }
    }
  }

  lemma OldNodeClosed(t: Tree, t': Tree, at: Node, names: seq<string>, leaf: Data, chain: seq<Node>, m: Node)
    requires Closed(t) && Grown(t, t', at, names, leaf, chain) && m in t
    ensures m in t' && (forall i :: 0 <= i < |t'[m].content| ==> t'[m].content[i] in t')
    ensures t'[m].kind.Alias? ==> t'[m].alias != null && t'[m].alias in t'
    ensures t'[m].kind.Mapping? ==> |t'[m].content| % 2 == 0
  {
    assert forall i :: 0 <= i < |t[m].content| ==> t[m].content[i] in t;
  }

  lemma NewNodeClosed(t: Tree, t': Tree, at: Node, names: seq<string>, leaf: Data, chain: seq<Node>, m: Node)
    requires Grown(t, t', at, names, leaf, chain) && leaf.content == [] && !leaf.kind.Alias? && m in t' && m !in t
    ensures forall i :: 0 <= i < |t'[m].content| ==> t'[m].content[i] in t'
    ensures !t'[m].kind.Alias? && (t'[m].kind.Mapping? ==> |t'[m].content| % 2 == 0)
  {
    var j :| 0 <= j < |chain| && chain[j] == m;
    assert LinkAt(t', names, leaf, chain, j / 2);
  }

  // ---------------------------------------------------------------------------------------------
  // Setting a value
  // ---------------------------------------------------------------------------------------------

  /** The index of the first segment with a bad index, or the number of segments. */
  function FirstBad(keys: seq<string>, i: nat := 0): (r: nat)
    requires i <= |keys|
    ensures i <= r <= |keys|
    ensures forall j :: i <= j < r ==> !ParseSegment(keys[j]).BadIndex?
    ensures r < |keys| ==> ParseSegment(keys[r]).BadIndex?
    decreases |keys| - i
  {
    if i == |keys| || ParseSegment(keys[i]).BadIndex? then i else FirstBad(keys, i + 1)
  }

  /** What setting a path leaves, on success and on failure. */
  ghost predicate PathSet(t: Tree, t': Tree, m: Node, keys: seq<string>, value: string,
                          ok: bool, written: Node, chain: seq<Node>)
    requires keys != []
  {
    match Plan(t, m, keys)
    case Overwrite(n) => ok && written == n && chain == [] && n in t && t' == WithText(t, n, value, "!!str")
    case Create(at, names) =>
      && (ok <==> NoneBad(names))
      && Grown(t, t', at, names[..FirstBad(names)], if ok then ScalarData(value) else EMPTY_MAPPING, chain)
      && (ok ==> written == chain[|chain| - 1])
    case Fail => !ok && t' == t && chain == []
  }

  /** Where the loop of setHelmValue is before segment `i`: still on existing nodes, or creating some. */
  ghost predicate Midway(t: Tree, t': Tree, m: Node, keys: seq<string>, i: nat, current: Node, chain: seq<Node>)
    requires i < |keys|
  {
    if chain == [] then
      t' == t && current in t && t[current].kind.Mapping? && Plan(t, m, keys) == Plan(t, current, keys[i..])
    else
      var p := Plan(t, m, keys);
      && p.Create? && |keys| - i < |p.keys|
      && (var j := |p.keys| - (|keys| - i);
          p.keys[j..] == keys[i..] && NoneBad(p.keys[..j]) && Grown(t, t', p.at, p.keys[..j], EMPTY_MAPPING, chain))
      && current == chain[|chain| - 1]
  }

  lemma SuffixHead(names: seq<string>, j: nat, keys: seq<string>, i: nat)
    requires i < |keys| && j < |names| && names[j..] == keys[i..]
    ensures names[j] == keys[i] && names[j + 1..] == keys[i + 1..] && names[..j + 1] == names[..j] + [keys[i]]
  {
    assert names[j] == names[j..][0] && keys[i] == keys[i..][0];
    assert names[j + 1..] == names[j..][1..] && keys[i + 1..] == keys[i..][1..];
  }

  lemma NoneBadMore(names: seq<string>, name: string)
    requires NoneBad(names) && !ParseSegment(name).BadIndex?
    ensures NoneBad(names + [name])
  {
  }

  lemma MidwayStays(t: Tree, t': Tree, m: Node, keys: seq<string>, i: nat, current: Node, chain: seq<Node>)
    requires Closed(t) && i < |keys| && Midway(t, t', m, keys, i, current, chain)
    ensures Closed(t') && current in t' && t'[current].kind.Mapping?
    ensures chain != [] ==> t'[current].content == []
  {
    if chain != [] {
      var p := Plan(t, m, keys);
      var names := p.keys[..|p.keys| - (|keys| - i)];
      assert LinkAt(t', names, EMPTY_MAPPING, chain, |names| - 1);
      GrownClosed(t, t', p.at, names, EMPTY_MAPPING, chain);
    }
  }

  /** A bad index stops the loop. */
  lemma MidwayBad(t: Tree, t': Tree, m: Node, keys: seq<string>, i: nat, current: Node, chain: seq<Node>, value: string)
    requires i < |keys| && Midway(t, t', m, keys, i, current, chain) && ParseSegment(keys[i]).BadIndex?
    ensures PathSet(t, t', m, keys, value, false, current, chain)
  {
    assert keys[i..][0] == keys[i];
    if chain != [] {
      var names := Plan(t, m, keys).keys;
      var j := |names| - (|keys| - i);
      SuffixHead(names, j, keys, i);
      FirstBadAt(names, j);
    }
  }

  lemma FirstBadAt(keys: seq<string>, i: nat)
    requires i <= |keys| && NoneBad(keys[..i]) && (i < |keys| ==> ParseSegment(keys[i]).BadIndex?)
    ensures FirstBad(keys) == i
    ensures NoneBad(keys) <==> i == |keys|
  {
    assert keys[..|keys|] == keys;
    forall j | 0 <= j < i ensures !ParseSegment(keys[j]).BadIndex? {
      assert keys[..i][j] == keys[j];
    }
  }

  /** The loop moves on to an existing mapping. */
  lemma MidwayInto(t: Tree, m: Node, keys: seq<string>, i: nat, current: Node)
    requires Closed(t) && i < |keys| && Midway(t, t, m, keys, i, current, []) && !ParseSegment(keys[i]).BadIndex?
    requires Enter(t, current, ParseSegment(keys[i])).Into? && Enter(t, current, ParseSegment(keys[i])).node in t
    ensures var n := Enter(t, current, ParseSegment(keys[i])).node;
            Plan(t, m, keys) ==
            if i + 1 == |keys| then (if t[n].kind.Scalar? then Overwrite(n) else Fail)
            else if t[n].kind.Mapping? then Plan(t, n, keys[i + 1..]) else Fail
  {
    var rest := keys[i..];
    assert rest[0] == keys[i] && rest[1..] == keys[i + 1..];
  }

  /** The loop adds a pair to the first mapping that lacks a key. */
  lemma MidwayAppendFirst(t: Tree, m: Node, keys: seq<string>, i: nat, current: Node, k: Node, v: Node, leaf: Data)
    requires i < |keys| && Midway(t, t, m, keys, i, current, []) && !ParseSegment(keys[i]).BadIndex?
    requires Enter(t, current, ParseSegment(keys[i])).NotFound?
    requires k !in t && v !in t && k != v
    ensures Appended(t, AddPair(t, current, k, v, keys[i], leaf), m, keys, i, leaf, [k, v])
  {
    var rest := keys[i..];
    assert rest[0] == keys[i];
    assert Plan(t, m, keys) == Create(current, rest);
    assert rest[..1] == [keys[i]] && rest[0..] == rest;
    GrownFirst(t, current, k, v, keys[i], leaf);
  }

  /** The loop adds a pair to the mapping it created last. */
  lemma MidwayAppendMore(t: Tree, t': Tree, m: Node, keys: seq<string>, i: nat, at: Node, names: seq<string>, j: nat,
                         chain: seq<Node>, k: Node, v: Node, leaf: Data)
    requires i < |keys| && !ParseSegment(keys[i]).BadIndex? && Plan(t, m, keys) == Create(at, names)
    requires j < |names| && |names| - j == |keys| - i && names[j..] == keys[i..] && NoneBad(names[..j])
    requires Grown(t, t', at, names[..j], EMPTY_MAPPING, chain) && k !in t' && v !in t' && k != v
    ensures Appended(t, AddPair(t', chain[|chain| - 1], k, v, keys[i], leaf), m, keys, i, leaf, chain + [k, v])
  {
    var made, t'' := names[..j], AddPair(t', chain[|chain| - 1], k, v, keys[i], leaf);
    SuffixHead(names, j, keys, i);
    NoneBadMore(made, keys[i]);
    GrownMore(t, t', at, made, chain, k, v, keys[i], leaf);
    AppendedIs(t, t'', m, keys, i, at, names, made + [keys[i]], leaf, chain + [k, v]);
  }

  lemma AppendedIs(t: Tree, t': Tree, m: Node, keys: seq<string>, i: nat, at: Node, names: seq<string>,
                   made: seq<string>,
                   leaf: Data, chain: seq<Node>)
    requires i < |keys| && Plan(t, m, keys) == Create(at, names) && 0 < |made| <= |names|
    requires |names| - |made| == |keys| - i - 1 && names[|made| - 1..] == keys[i..] && made == names[..|made|]
    requires NoneBad(made) && Grown(t, t', at, made, leaf, chain)
    ensures Appended(t, t', m, keys, i, leaf, chain)
  {
  }

  /** The path is created up to and including segment `i`. */
  ghost predicate Appended(t: Tree, t': Tree, m: Node, keys: seq<string>, i: nat, leaf: Data, chain: seq<Node>)
    requires i < |keys|
  {
    var p := Plan(t, m, keys);
    && p.Create? && |keys| - i <= |p.keys|
    && (var j := |p.keys| - (|keys| - i);
        && p.keys[j..] == keys[i..] && NoneBad(p.keys[..j + 1])
        && Grown(t, t', p.at, p.keys[..j + 1], leaf, chain))
  }

  lemma AppendedMidway(t: Tree, t': Tree, m: Node, keys: seq<string>, i: nat, chain: seq<Node>)
    requires i + 1 < |keys| && Appended(t, t', m, keys, i, EMPTY_MAPPING, chain)
    ensures chain != [] && Midway(t, t', m, keys, i + 1, chain[|chain| - 1], chain)
  {
    var names := Plan(t, m, keys).keys;
    var j := |names| - (|keys| - i);
    SuffixHead(names, j, keys, i);
  }

  lemma AppendedLast(t: Tree, t': Tree, m: Node, keys: seq<string>, value: string, chain: seq<Node>)
    requires keys != [] && Appended(t, t', m, keys, |keys| - 1, ScalarData(value), chain)
    ensures chain != [] && PathSet(t, t', m, keys, value, true, chain[|chain| - 1], chain)
  {
    var names := Plan(t, m, keys).keys;
    assert names[..|names|] == names;
    FirstBadAt(names, |names|);
  }

  // ---------------------------------------------------------------------------------------------
  // The operation that sets a value, round by round
  // ---------------------------------------------------------------------------------------------

  /** Appends a new key and a new value to a mapping. */
  method AppendPair(m: Node, name: string, leaf: Data, ghost w: set<Node>, ghost t: Tree) returns (k: Node, v: Node)
    requires m in w && t == Snapshot(w) && leaf.content == [] && leaf.alias == null
    modifies m
    ensures fresh(k) && fresh(v) && k != v
    ensures Snapshot(w + {k, v}) == AddPair(t, m, k, v, name, leaf)
  {
    k := new Node(Scalar, name, "!!str", 0, 0);
    v := new Node(leaf.kind, leaf.value, leaf.tag, 0, 0);
    assert Snapshot(w) == t;
    Append(m, k, v, name, leaf, w, t);
  }

  method Append(m: Node, k: Node, v: Node, name: string, leaf: Data, ghost w: set<Node>, ghost t: Tree)
    requires m in w && k !in w && v !in w && k != v && t == Snapshot(w)
    requires Data(k.kind, k.value, k.tag, k.content, k.alias) == ScalarData(name)
    requires Data(v.kind, v.value, v.tag, v.content, v.alias) == leaf
    modifies m
    ensures Snapshot(w + {k, v}) == AddPair(t, m, k, v, name, leaf)
  {
    m.content := m.content + [k, v];
    assert Snapshot(w + {k, v}).Keys == AddPair(t, m, k, v, name, leaf).Keys;
  }

  lemma MidwayAppend(t: Tree, t': Tree, m: Node, keys: seq<string>, i: nat, current: Node, chain: seq<Node>,
                     k: Node, v: Node, leaf: Data)
    requires i < |keys| && Midway(t, t', m, keys, i, current, chain) && !ParseSegment(keys[i]).BadIndex?
    requires current in t' && Enter(t', current, ParseSegment(keys[i])).NotFound?
    requires k !in t' && v !in t' && k != v
    ensures Appended(t, AddPair(t', current, k, v, keys[i], leaf), m, keys, i, leaf, chain + [k, v])
  {
    if chain == [] {
      MidwayAppendFirst(t, m, keys, i, current, k, v, leaf);
      assert chain + [k, v] == [k, v];
    } else {
      var p := Plan(t, m, keys);
      MidwayAppendMore(t, t', m, keys, i, p.at, p.keys, |p.keys| - (|keys| - i), chain, k, v, leaf);
    }
  }

  /** What one round of the loop leaves: the result, or the state before the next segment. */
  ghost predicate Round(t: Tree, t': Tree, m: Node, keys: seq<string>, i: nat, value: string,
                        done: bool, ok: bool, next: Node, chain: seq<Node>)
    requires i < |keys|
  {
    if done then PathSet(t, t', m, keys, value, ok, next, chain)
    else i + 1 < |keys| && Midway(t, t', m, keys, i + 1, next, chain)
  }

  function LeafAt(keys: seq<string>, i: nat, value: string): Data {
    if i + 1 == |keys| then ScalarData(value) else EMPTY_MAPPING
  }

  lemma CreateRound(t: Tree, t': Tree, m: Node, keys: seq<string>, i: nat, current: Node, chain: seq<Node>,
                    k: Node, v: Node, value: string)
    requires i < |keys| && Midway(t, t', m, keys, i, current, chain) && !ParseSegment(keys[i]).BadIndex?
    requires current in t' && Enter(t', current, ParseSegment(keys[i])).NotFound?
    requires k !in t' && v !in t' && k != v
    ensures Round(t, AddPair(t', current, k, v, keys[i], LeafAt(keys, i, value)), m, keys, i, value, i + 1 == |keys|,
                  true, v, chain + [k, v])
  {
    var t'' := AddPair(t', current, k, v, keys[i], LeafAt(keys, i, value));
    MidwayAppend(t, t', m, keys, i, current, chain, k, v, LeafAt(keys, i, value));
    if i + 1 == |keys| {
      AppendedLast(t, t'', m, keys, value, chain + [k, v]);
    } else {
      AppendedMidway(t, t'', m, keys, i, chain + [k, v]);
    }
  }

  /** The branch of the loop that creates nodes for segment `i`. */
  method CreateSegment(current: Node, value: string, ghost t: Tree, ghost t': Tree, ghost m: Node, keys: seq<string>,
                       i: nat,
                       ghost chain: seq<Node>, ghost w: set<Node>)
    returns (v: Node, ghost chain': seq<Node>, ghost w': set<Node>)
    requires i < |keys| && current in w && t' == Snapshot(w) && Midway(t, t', m, keys, i, current, chain)
    requires !ParseSegment(keys[i]).BadIndex? && Enter(t', current, ParseSegment(keys[i])).NotFound?
    modifies current
    ensures fresh(w' - w)
    ensures Round(t, Snapshot(w'), m, keys, i, value, i + 1 == |keys|, true, v, chain')
  {
    var k;
    k, v := AppendPair(current, keys[i], LeafAt(keys, i, value), w, t');
    CreateRound(t, t', m, keys, i, current, chain, k, v, value);
    chain', w' := chain + [k, v], w + {k, v};
  }

  /** Only existing mappings have a key already. */
  lemma MidwayFound(t: Tree, t': Tree, m: Node, keys: seq<string>, i: nat, current: Node, chain: seq<Node>)
    requires Closed(t) && i < |keys| && Midway(t, t', m, keys, i, current, chain) && !ParseSegment(keys[i]).BadIndex?
    requires !Enter(t', current, ParseSegment(keys[i])).NotFound?
    ensures chain == [] && t' == t
  {
    MidwayStays(t, t', m, keys, i, current, chain);
  }

  lemma MidwayRefused(t: Tree, m: Node, keys: seq<string>, i: nat, current: Node, value: string)
    requires i < |keys| && Midway(t, t, m, keys, i, current, []) && !ParseSegment(keys[i]).BadIndex?
    requires Enter(t, current, ParseSegment(keys[i])).Refused?
    ensures PathSet(t, t, m, keys, value, false, current, [])
  {
    assert keys[i..][0] == keys[i];
  }

  /** The branch of the loop that has found a node `n` for segment `i`. */
  method UseNode(n: Node, value: string, ghost t: Tree, ghost m: Node, keys: seq<string>, i: nat, ghost current: Node,
                 ghost w: set<Node>)
    returns (done: bool, ok: bool)
    requires Closed(t) && i < |keys| && Midway(t, Snapshot(w), m, keys, i, current, [])
    requires !ParseSegment(keys[i]).BadIndex?
    requires Enter(t, current, ParseSegment(keys[i])) == Into(n) && n in w
    modifies n
    ensures Round(t, Snapshot(w), m, keys, i, value, done, ok, n, [])
  {
    assert t == Snapshot(w);
    MidwayInto(t, m, keys, i, current);
    if i == |keys| - 1 {
      if !n.kind.Scalar? {
        return true, false;
      }
      SetScalar(n, value, w, t);
      return true, true;
    }
    done, ok := !n.kind.Mapping?, false;
  }

  /** The branch of the loop for a segment whose key is there. */
  method UseSegment(e: Entered, value: string, current: Node, ghost t: Tree, ghost t': Tree, ghost m: Node,
                    keys: seq<string>, i: nat,
                    ghost chain: seq<Node>, ghost w: set<Node>)
    returns (done: bool, ok: bool, next: Node)
    requires Closed(t) && i < |keys| && t' == Snapshot(w) && Midway(t, t', m, keys, i, current, chain)
    requires !ParseSegment(keys[i]).BadIndex? && e == Enter(t', current, ParseSegment(keys[i]))
    requires !e.NotFound? && (e.Into? ==> e.node in w)
    modifies w
    ensures Round(t, Snapshot(w), m, keys, i, value, done, ok, next, chain)
  {
    MidwayFound(t, t', m, keys, i, current, chain);
    if e.Refused? {
      MidwayRefused(t, m, keys, i, current, value);
      return true, false, current;
    }
    next := e.node;
    done, ok := UseNode(e.node, value, t, m, keys, i, current, w);
  }

  method EnterMidway(current: Node, s: Segment, ghost t: Tree, ghost t': Tree, ghost m: Node, keys: seq<string>, i: nat,
                     ghost chain: seq<Node>, ghost w: set<Node>) returns (e: Entered)
    requires Closed(t) && i < |keys| && t' == Snapshot(w) && Midway(t, t', m, keys, i, current, chain) && !s.BadIndex?
    ensures e == Enter(t', current, s)
    ensures current in w && (e.Into? ==> e.node in w)
  {
    MidwayStays(t, t', m, keys, i, current, chain);
    e := EnterSegment(current, s, w);
  }

  /** One round of the loop of setHelmValue, once the segment `s` is parsed. */
  method SetSegment(current: Node, s: Segment, value: string, ghost t: Tree, ghost t': Tree, ghost m: Node,
                    keys: seq<string>, i: nat,
                    ghost chain: seq<Node>, ghost w: set<Node>)
    returns (done: bool, ok: bool, next: Node, ghost chain': seq<Node>, ghost w': set<Node>)
    requires Closed(t) && i < |keys| && t' == Snapshot(w) && Midway(t, t', m, keys, i, current, chain)
    requires s == ParseSegment(keys[i]) && !s.BadIndex?
    modifies w
    ensures fresh(w' - w)
    ensures Round(t, Snapshot(w'), m, keys, i, value, done, ok, next, chain')
  {
    var e := EnterMidway(current, s, t, t', m, keys, i, chain, w);
    if e.NotFound? {
      next, chain', w' := CreateSegment(current, value, t, t', m, keys, i, chain, w);
      done, ok := i == |keys| - 1, true;
    } else {
      done, ok, next := UseSegment(e, value, current, t, t', m, keys, i, chain, w);
      chain', w' := chain, w;
    }
  }

  /** The loop of setHelmValue. */
  method SetPath(m: Node, keys: seq<string>, value: string, ghost w: set<Node>)
    returns (ok: bool, ghost written: Node, ghost chain: seq<Node>, ghost w': set<Node>)
    requires Closed(Snapshot(w)) && m in w && m.kind.Mapping? && keys != []
    modifies w
    ensures fresh(w' - w)
    ensures PathSet(old(Snapshot(w)), Snapshot(w'), m, keys, value, ok, written, chain)
  {
    ghost var t := Snapshot(w);
    var current := m;
    w', chain, written := w, [], m;
    assert keys[0..] == keys;
    for i := 0 to |keys|
      invariant i < |keys| && fresh(w' - w)
      invariant Midway(t, Snapshot(w'), m, keys, i, current, chain)
    {
      var s := ParseSegment(keys[i]);
      if s.BadIndex? {
        MidwayBad(t, Snapshot(w'), m, keys, i, current, chain, value);
        return false, current, chain, w';
      }
      var done, set_;
      done, set_, current, chain, w' := SetSegment(current, s, value, t, Snapshot(w'), m, keys, i, chain, w');
      if done {
        return set_, current, chain, w';
      }
    }
  }

  /** setHelmValue will succeed. */
  ghost predicate Settable(t: Tree, root: Node, key: string) {
    RootMapping(t, root).Some? &&
    (var m, keys := RootMapping(t, root).value, Split(key, '.');
     || Literal(t, m, key).Some?
     || Plan(t, m, keys).Overwrite?
     || (Plan(t, m, keys).Create? && NoneBad(Plan(t, m, keys).keys)))
  }

  /** setHelmValue will create nodes, whether or not it succeeds. */
  ghost predicate Creates(t: Tree, root: Node, key: string) {
    && RootMapping(t, root).Some?
    && Literal(t, RootMapping(t, root).value, key).None?
    && Plan(t, RootMapping(t, root).value, Split(key, '.')).Create?
  }

  /** setHelmValue on a key that is not settable leaves the mappings created before the bad index. */
  ghost predicate LeftBehind(t: Tree, t': Tree, root: Node, key: string, chain: seq<Node>) {
    if Creates(t, root, key) then
      var p := Plan(t, RootMapping(t, root).value, Split(key, '.'));
      && Grown(t, t', p.at, p.keys[..FirstBad(p.keys)], EMPTY_MAPPING, chain)
      && t' != t
    else t' == t
  }

  method SetHelmValue(currentValues: Node, key: string, value: string, ghost w: set<Node>)
    returns (ok: bool, ghost written: Node, ghost chain: seq<Node>, ghost w': set<Node>)
    requires Closed(Snapshot(w)) && currentValues in w && (currentValues.kind.Document? ==> currentValues.content != [])
    modifies w
    ensures fresh(w' - w)
    ensures ok <==> Settable(old(Snapshot(w)), currentValues, key)
    ensures ok ==> Wrote(old(Snapshot(w)), Snapshot(w'), currentValues, key, value, written, chain)
    ensures !ok ==> LeftBehind(old(Snapshot(w)), Snapshot(w'), currentValues, key, chain)
  {
    ghost var t := Snapshot(w);
    var current := currentValues;
    if current.kind.Document? {
      assert t[current].content[0] in t;
      current := current.content[0];
    }
    if !current.kind.Mapping? {
      return false, current, [], w;
    }
    assert RootMapping(t, currentValues) == Some(current);
    assert forall j :: 0 <= j < |current.content| ==> t[current].content[j] in t;
    var idx, found := FindHelmValuesKey(current, key, w);
    if found {
      SetText(current.content[idx], value, w, t);
      return true, current.content[idx], [], w;
    }
    ok, written, chain, w' := SetPath(current, Split(key, '.'), value, w);
    SetPathMeans(t, Snapshot(w'), currentValues, current, key, value, ok, written, chain);
  }

  method SetScalar(n: Node, value: string, ghost w: set<Node>, ghost t: Tree)
    requires n in w && t == Snapshot(w)
    modifies n
    ensures Snapshot(w) == WithText(t, n, value, "!!str")
  {
    n.value := value;
    n.tag := "!!str";
  }

  method SetText(n: Node, value: string, ghost w: set<Node>, ghost t: Tree)
    requires n in w && t == Snapshot(w)
    modifies n`value
    ensures Snapshot(w) == WithText(t, n, value, t[n].tag)
  {
    n.value := value;
  }

  lemma SetPathMeans(t: Tree, t': Tree, root: Node, m: Node, key: string, value: string, ok: bool, written: Node,
                     chain: seq<Node>)
    requires RootMapping(t, root) == Some(m) && Literal(t, m, key).None?
    requires PathSet(t, t', m, Split(key, '.'), value, ok, written, chain)
    ensures ok <==> Settable(t, root, key)
    ensures ok ==> Wrote(t, t', root, key, value, written, chain)
    ensures !ok ==> LeftBehind(t, t', root, key, chain)
  {
    var p := Plan(t, m, Split(key, '.'));
    if p.Create? {
      if ok {
        assert FirstBad(p.keys) == |p.keys|;
        assert p.keys[..|p.keys|] == p.keys;
      } else {
        assert chain[0] in t' && chain[0] !in t;
      }
    }
  }

  /** When every bracket holds an integer, a failing setHelmValue changes nothing. */
  lemma FailureChangesNothing(t: Tree, t': Tree, root: Node, key: string, chain: seq<Node>)
    requires NoneBad(Split(key, '.')) && !Settable(t, root, key) && LeftBehind(t, t', root, key, chain)
    ensures t' == t
  {
    if Creates(t, root, key) {
      var m := RootMapping(t, root).value;
      PlanSuffix(t, m, Split(key, '.'), Plan(t, m, Split(key, '.')));
    }
  }

  // ---------------------------------------------------------------------------------------------
  // What every successful call keeps
  // ---------------------------------------------------------------------------------------------

  lemma WithTextValid(t: Tree, n: Node, value: string, tag: string, root: Node)
    requires ValidDocument(t, root) && n in t
    ensures ValidDocument(WithText(t, n, value, tag), root)
  {
    var t' := WithText(t, n, value, tag);
    forall k ensures IsKey(t', k) ==> IsKey(t, k) {
      if IsKey(t', k) {
        var m, i :| m in t' && t'[m].kind.Mapping? && 0 <= i < |t'[m].content| && i % 2 == 0 && t'[m].content[i] == k;
        assert m in t && t[m].content[i] == k;
      }
    }
    assert RootMapping(t', root) == RootMapping(t, root);
  }

  /** The keys of a grown document are its old ones and those of the new path. */
  lemma GrownIsKey(t: Tree, t': Tree, at: Node, names: seq<string>, leaf: Data, chain: seq<Node>, k: Node)
    requires Closed(t) && Grown(t, t', at, names, leaf, chain) && leaf.content == [] && IsKey(t', k)
    ensures if k in t then IsKey(t, k) else exists i :: 0 <= i < |names| && k == chain[2 * i]
  {
    var m, i :| m in t' && t'[m].kind.Mapping? && 0 <= i < |t'[m].content| && i % 2 == 0 && t'[m].content[i] == k;
    if m in t {
      OldMappingKey(t, t', at, names, leaf, chain, m, i);
    } else {
      NewMappingKey(t, t', at, names, leaf, chain, m, i);
    }
  }

  lemma OldMappingKey(t: Tree, t': Tree, at: Node, names: seq<string>, leaf: Data, chain: seq<Node>, m: Node, i: nat)
    requires Closed(t) && Grown(t, t', at, names, leaf, chain)
    requires m in t && m in t' && t'[m].kind.Mapping? && i < |t'[m].content| && i % 2 == 0
    ensures var k := t'[m].content[i];
            (k in t && IsKey(t, k)) || (k !in t && k == chain[2 * 0])
  {
    assert t[m].kind.Mapping?;
    if i < |t[m].content| {
      assert t[m].content[i] in t;
    }
  }

  lemma NewMappingKey(t: Tree, t': Tree, at: Node, names: seq<string>, leaf: Data, chain: seq<Node>, m: Node, i: nat)
    requires Grown(t, t', at, names, leaf, chain) && leaf.content == []
    requires m !in t && m in t' && i < |t'[m].content| && i % 2 == 0
    ensures t'[m].content[i] !in t && exists j :: 0 <= j < |names| && t'[m].content[i] == chain[2 * j]
  {
    var j :| 0 <= j < |chain| && chain[j] == m;
    assert LinkAt(t', names, leaf, chain, j / 2);
    assert t'[m].content[i] == chain[2 * (j / 2 + 1)];
  }

  lemma GrownKeysApart(t: Tree, t': Tree, at: Node, names: seq<string>, leaf: Data, chain: seq<Node>, m: Node, i: nat)
    requires Closed(t) && KeysApart(t) && Grown(t, t', at, names, leaf, chain) && leaf.content == []
    requires m in t' && i < |t'[m].content| && (t'[m].kind.Sequence? || (t'[m].kind.Mapping? && i % 2 == 1))
    ensures !IsKey(t', t'[m].content[i])
  {
    var v := t'[m].content[i];
    GrownValue(t, t', at, names, leaf, chain, m, i);
    if IsKey(t', v) {
      GrownIsKey(t, t', at, names, leaf, chain, v);
    }
  }

  /** The values of a grown document are its old ones and those of the new path. */
  lemma GrownValue(t: Tree, t': Tree, at: Node, names: seq<string>, leaf: Data, chain: seq<Node>, m: Node, i: nat)
    requires Closed(t) && KeysApart(t) && Grown(t, t', at, names, leaf, chain) && leaf.content == []
    requires m in t' && i < |t'[m].content| && (t'[m].kind.Sequence? || (t'[m].kind.Mapping? && i % 2 == 1))
    ensures var v := t'[m].content[i];
            (v in t && !IsKey(t, v)) || exists j :: 0 <= j < |names| && v == chain[2 * j + 1]
  {
    var v := t'[m].content[i];
    if m in t {
      if i < |t[m].content| {
        assert t[m].content[i] == v && v in t;
      } else {
        assert v == chain[2 * 0 + 1];
      }
    } else {
      var j :| 0 <= j < |chain| && chain[j] == m;
      assert LinkAt(t', names, leaf, chain, j / 2);
      assert v == chain[2 * (j / 2 + 1) + 1];
    }
  }

  /** A successful setHelmValue keeps the document fit for the next call. */
  lemma KeepsValid(t: Tree, t': Tree, root: Node, key: string, value: string, written: Node, chain: seq<Node>)
    requires ValidDocument(t, root) && Wrote(t, t', root, key, value, written, chain)
    ensures ValidDocument(t', root)
  {
    var m, keys := RootMapping(t, root).value, Split(key, '.');
    if Literal(t, m, key).Some? {
      WithTextValid(t, written, value, t[written].tag, root);
    } else if Plan(t, m, keys).Overwrite? {
      WithTextValid(t, written, value, "!!str", root);
    } else {
      var Create(at, names) := Plan(t, m, keys);
      GrownValid(t, t', root, at, names, ScalarData(value), chain);
    }
  }

  lemma GrownValid(t: Tree, t': Tree, root: Node, at: Node, names: seq<string>, leaf: Data, chain: seq<Node>)
    requires ValidDocument(t, root) && Grown(t, t', at, names, leaf, chain) && leaf.content == [] && leaf.kind.Scalar?
    ensures ValidDocument(t', root)
  {
    GrownClosed(t, t', at, names, leaf, chain);
    RootGrown(t, t', at, names, leaf, chain, root);
    forall m, i: nat | m in t' && i < |t'[m].content| && (t'[m].kind.Sequence? || (t'[m].kind.Mapping? && i % 2 == 1))
      ensures !IsKey(t', t'[m].content[i])
    {
      GrownKeysApart(t, t', at, names, leaf, chain, m, i);
    }
    forall m | m in t' && t'[m].kind.Alias? ensures !IsKey(t', t'[m].alias) {
      GrownAlias(t, t', at, names, leaf, chain, m);
    }
  }

  lemma GrownKind(t: Tree, t': Tree, at: Node, names: seq<string>, leaf: Data, chain: seq<Node>, m: Node)
    requires Grown(t, t', at, names, leaf, chain) && leaf.kind.Scalar? && m in t'
    ensures m in t || t'[m].kind.Mapping? || t'[m].kind.Scalar?
  {
    if m !in t {
      var j :| 0 <= j < |chain| && chain[j] == m;
      assert LinkAt(t', names, leaf, chain, j / 2);
    }
  }

  lemma GrownAlias(t: Tree, t': Tree, at: Node, names: seq<string>, leaf: Data, chain: seq<Node>, m: Node)
    requires Closed(t) && KeysApart(t) && Grown(t, t', at, names, leaf, chain) && leaf.content == []
    requires leaf.kind.Scalar?
    requires m in t' && t'[m].kind.Alias?
    ensures t'[m].alias != null && !IsKey(t', t'[m].alias)
  {
    GrownKind(t, t', at, names, leaf, chain, m);
    if IsKey(t', t'[m].alias) {
      GrownIsKey(t, t', at, names, leaf, chain, t'[m].alias);
    }
  }

  // ---------------------------------------------------------------------------------------------
  // Patching in place and writing through the tree
  // ---------------------------------------------------------------------------------------------

  /**
   The node the in-place path patches for a key is the one setHelmValue writes, exactly if the root has
   no such literal key, or the nested path leads to the literal's node, or the path leads nowhere and
   the literal's node is no alias.
   */
  lemma InPlaceTarget(t: Tree, t': Tree, root: Node, key: string, value: string, written: Node, chain: seq<Node>)
    requires ValidDocument(t, root) && Wrote(t, t', root, key, value, written, chain)
    requires Resolve(t, root, key).Some?
    ensures var m := RootMapping(t, root).value;
            var v, nested := Literal(t, m, key), Walk(t, m, Split(key, '.'));
            Resolve(t, root, key).value == written <==>
            (v.None? || nested == Hit(v.value) || (nested.Miss? && Deref(t, v.value) == v.value))
  {
    var m, keys := RootMapping(t, root).value, Split(key, '.');
    WalkAndPlan(t, m, keys);
  }

  /** Creating an indexed segment makes a literal key that the nested reading never finds. */
  lemma CreatedBracketIsLost(root: Node, t': Tree, value: string, written: Node, chain: seq<Node>)
    requires Wrote(map[root := EMPTY_MAPPING], t', root, "a[0].b", value, written, chain)
    ensures Resolve(t', root, "a[0].b") != Some(written)
  {
    BracketSegments();
    GetAfterSet(map[root := EMPTY_MAPPING], t', root, "a[0].b", value, written, chain);
  }

  lemma BracketSegments()
    ensures Split("a[0].b", '.') == ["a[0]", "b"]
    ensures ParseSegment("a[0]") == Indexed("a", 0)
  {
    var parts := ["a[0]", "b"];
    assert parts[1..] == ["b"];
    SplitJoin(parts, '.');
    assert Join(parts, '.') == "a[0]" + "." + Join(["b"], '.') == "a[0].b";
    SegmentWithBracket("a", "0");
    assert "a" + "[" + "0" + "]" == "a[0]";
    assert Digits("0") == 0 by { assert "0"[..0] == ""; }
  }

  /** The segments of a key of two names, and of one with a bracket that holds no integer. */
  lemma BadBracketSegments()
    ensures Split("a.c", '.') == ["a", "c"] && Split("a.b[x]", '.') == ["a", "b[x]"]
    ensures ParseSegment("a") == Plain("a") && ParseSegment("b[x]") == BadIndex
  {
    assert Split("a.c", '.') == ["a", "c"] by {
      SplitPair("a", "c");
      assert "a" + "." + "c" == "a.c";
    }
    assert Split("a.b[x]", '.') == ["a", "b[x]"] by {
      SplitPair("a", "b[x]");
      assert "a" + "." + "b[x]" == "a.b[x]";
    }
    SegmentIsPlain("a");
    BadBracketSegment();
  }

  lemma BadBracketSegment()
    ensures ParseSegment("b[x]") == BadIndex
  {
    SegmentWithBracket("b", "x");
    assert "b" + "[" + "x" + "]" == "b[x]";
    assert !IsDigits("x") by { assert "x"[0] == 'x'; }
  }

  lemma SplitPair(a: string, b: string)
    requires '.' !in a && '.' !in b
    ensures Split(a + "." + b, '.') == [a, b]
  {
    CutFirst(a, '.', b);
    CutNone(b, '.');
  }

  /** A document with one literal key. */
  ghost function OneKey(root: Node, k: Node, v: Node, key: string, value: string): Tree {
    map[root := EMPTY_MAPPING.(content := [k, v]), k := ScalarData(key), v := ScalarData(value)]
  }

  lemma OneKeyLookup(root: Node, k: Node, v: Node, key: string, value: string, other: string)
    requires root != k && root != v && k != v
    ensures var t := OneKey(root, k, v, key, value);
            && RootMapping(t, root) == Some(root)
            && KeyIndex(t, At(t, root).content, other, 0) == if other == key then Some(1) else None
  {
    var t := OneKey(root, k, v, key, value);
    assert KeyIndex(t, [k, v], other, 2).None?;
  }

  lemma OneKeyValid(root: Node, k: Node, v: Node, key: string, value: string)
    requires root != k && root != v && k != v
    ensures ValidDocument(OneKey(root, k, v, key, value), root)
  {
    var t := OneKey(root, k, v, key, value);
    OneKeyLookup(root, k, v, key, value, key);
    forall n ensures IsKey(t, n) ==> n == k {
    }
  }

  /** Creating `a.c` beside a literal key `a.b[x]` makes that key unreadable. */
  lemma CreatedPathDiverts(root: Node, k: Node, v: Node, t': Tree, value: string, written: Node, chain: seq<Node>)
    requires root != k && root != v && k != v
    requires RootMapping(OneKey(root, k, v, "a.b[x]", "1"), root).Some?
    requires Wrote(OneKey(root, k, v, "a.b[x]", "1"), t', root, "a.c", value, written, chain)
    ensures Resolve(OneKey(root, k, v, "a.b[x]", "1"), root, "a.b[x]") == Some(v)
    ensures Resolve(t', root, "a.b[x]") != Some(v)
  {
    var t := OneKey(root, k, v, "a.b[x]", "1");
    BadBracketSegments();
    OneKeyPlans(root, k, v);
    assert written != v by {
      assert chain[|chain| - 1] !in t;
    }
    DivertsAtBadIndex(t, root);
    OneKeyValid(root, k, v, "a.b[x]", "1");
    OthersKeep(t, t', root, "a.c", value, written, chain, "a.b[x]");
  }

  lemma OneKeyPlans(root: Node, k: Node, v: Node)
    requires root != k && root != v && k != v && Split("a.b[x]", '.') == ["a", "b[x]"]
    requires ParseSegment("a") == Plain("a")
    ensures var t := OneKey(root, k, v, "a.b[x]", "1");
            && RootMapping(t, root) == Some(root) && Literal(t, root, "a.c").None?
            && Plan(t, root, ["a", "c"]) == Create(root, ["a", "c"])
            && Plan(t, root, ["a", "b[x]"]) == Create(root, ["a", "b[x]"])
            && Resolve(t, root, "a.b[x]") == Some(v)
  {
    var t := OneKey(root, k, v, "a.b[x]", "1");
    OneKeyLookup(root, k, v, "a.b[x]", "1", "a");
    OneKeyLookup(root, k, v, "a.b[x]", "1", "a.c");
    OneKeyLookup(root, k, v, "a.b[x]", "1", "a.b[x]");
    assert Enter(t, root, Plain("a")) == NotFound;
  }

  lemma DivertsAtBadIndex(t: Tree, root: Node)
    requires Split("a.c", '.') == ["a", "c"] && Split("a.b[x]", '.') == ["a", "b[x]"]
    requires ParseSegment("a") == Plain("a") && ParseSegment("b[x]") == BadIndex && Literal(t, root, "a.c").None?
    requires Plan(t, root, ["a", "c"]) == Create(root, ["a", "c"])
    requires Plan(t, root, ["a", "b[x]"]) == Create(root, ["a", "b[x]"])
    ensures Diverts(t, root, "a.c", "a.b[x]")
  {
    assert ["a", "c"][1..] == ["c"] && ["a", "b[x]"][1..] == ["b[x]"];
    assert Follow(["c"], ["b[x]"]) == Breaks;
  }

  /** Setting `a.b[x]` in an empty document fails and leaves a mapping `a` behind. */
  lemma FailureLeavesMapping(root: Node)
    ensures var t := map[root := EMPTY_MAPPING];
            && !Settable(t, root, "a.b[x]") && Creates(t, root, "a.b[x]")
            && Plan(t, root, Split("a.b[x]", '.')) == Create(root, ["a", "b[x]"]) && FirstBad(["a", "b[x]"]) == 1
  {
    var t: Tree := map[root := EMPTY_MAPPING];
    BadBracketSegments();
    assert KeyIndex(t, [], "a", 0).None? && KeyIndex(t, [], "a.b[x]", 0).None?;
    assert Plan(t, root, ["a", "b[x]"]) == Create(root, ["a", "b[x]"]);
    assert ["a", "b[x]"][0] == "a" && ["a", "b[x]"][1] == "b[x]";
    assert FirstBad(["a", "b[x]"], 1) == 1;
  }
}

/**
 Patching values in the text of a YAML document (pkg/argocd/update.go).

 When every key already denotes a scalar, the values are replaced in the text where the parser
 recorded them, instead of in the tree. The theorems say what the patched text is, when the order of
 the writes does not matter, and that both ways of writing change the same nodes.
 */
module HelmPatch {
  import opened Options
  import opened Strings
  import TextLayer
  import opened HelmValues
  import opened TextPatch

  /** A value to write. */
  datatype Write = Write(path: string, value: string)

  // ---------------------------------------------------------------------------------------------
  // Plain scalars
  // ---------------------------------------------------------------------------------------------

  predicate Contains(s: string, a: char, b: char) {
    exists i :: 0 <= i < |s| - 1 && s[i] == a && s[i + 1] == b
  }

  /** isSafePlainScalar; `isString` says whether YAML resolves a plain scalar to a string. */
  predicate IsSafePlainScalar(s: string, isString: string -> bool) {
    && s != "" && '\n' !in s && '\t' !in s
    && !Contains(s, ':', ' ') && !Contains(s, ' ', '#')
    && s[0] != ' ' && s[|s| - 1] != ' ' && s[|s| - 1] != ':'
    && s[0] !in {'!', '&', '*', '?', '|', '>', '%', '@', '`', '"', '\'', '#', ',', '[', ']', '{', '}', '-'}
    && isString(s)
    && ToLower(s) !in {"yes", "no", "on", "off", "y", "n", "null", "~"}
  }

  predicate PartAt(text: string, part: string, i: nat) {
    i + |part| <= |text| && text[i..i + |part|] == part
  }

  /** What `text` contains, as a part of it. */
  ghost predicate HasPart(text: string, part: string) {
    exists i: nat :: PartAt(text, part, i)
  }

  lemma ContainsIsPart(text: string, a: char, b: char, part: string)
    requires part == [a, b]
    ensures Contains(text, a, b) <==> HasPart(text, part)
  {
    if Contains(text, a, b) {
      var i :| 0 <= i < |text| - 1 && text[i] == a && text[i + 1] == b;
      assert PartAt(text, part, i);
    }
    if HasPart(text, part) {
      var i: nat :| PartAt(text, part, i);
      assert text[i] == text[i..i + 2][0] && text[i + 1] == text[i..i + 2][1];
    }
  }

  const INDICATORS := "!&*?|>%@`\"'#,[]{}-"

  lemma StartsPlain(c: char)
    ensures c in INDICATORS <==>
            c in {'!', '&', '*', '?', '|', '>', '%', '@', '`', '"', '\'', '#', ',', '[', ']', '{', '}', '-'}
  {
    assert INDICATORS[0] == '!' && INDICATORS[1] == '&' && INDICATORS[2] == '*' && INDICATORS[3] == '?';
    assert INDICATORS[4] == '|' && INDICATORS[5] == '>' && INDICATORS[6] == '%' && INDICATORS[7] == '@';
    assert INDICATORS[8] == '`' && INDICATORS[9] == '"' && INDICATORS[10] == '\'' && INDICATORS[11] == '#';
    assert INDICATORS[12] == ',' && INDICATORS[13] == '[' && INDICATORS[14] == ']' && INDICATORS[15] == '{';
    assert INDICATORS[16] == '}' && INDICATORS[17] == '-';
  }

  /** What may be written without quotes: a plain scalar that stays on its line and is a string for every parser. */
  lemma PlainMeans(text: string, isString: string -> bool)
    ensures IsSafePlainScalar(text, isString) <==>
            && |text| > 0 && isString(text)
            && ToLower(text) !in ["yes", "no", "on", "off", "y", "n", "null", "~"]
            && text[0] !in INDICATORS && text[0] != ' ' && text[|text| - 1] != ' ' && text[|text| - 1] != ':'
            && !HasPart(text, ": ") && !HasPart(text, " #") && '\n' !in text && '\t' !in text
  {
    ContainsIsPart(text, ':', ' ', ": ");
    ContainsIsPart(text, ' ', '#', " #");
    if text != "" {
      StartsPlain(text[0]);
    }
  }

  // ---------------------------------------------------------------------------------------------
  // Patching lines
  // ---------------------------------------------------------------------------------------------

  function Safe(isString: string -> bool): string -> bool {
    s => IsSafePlainScalar(s, isString)
  }

  function PatchOf(n: Node, value: string, now: string): Patch {
    Patch(n.line, n.column, value, now)
  }

  method PatchScalarValue(lines: array<string>, node: Node?, newValue: string,
                          isString: string -> bool) returns (ok: bool)
    modifies lines
    ensures ok <==>
            node != null && Holds(old(lines[..]), PatchOf(node, node.value, newValue)) && Safe(isString)(newValue)
    ensures ok ==> lines[..] == Apply(old(lines[..]), PatchOf(node, node.value, newValue))
    ensures !ok ==> lines[..] == old(lines[..])
  {
    if node == null || node.line < 1 || node.line > lines.Length {
      return false;
    }
    var line := lines[node.line - 1];
    var col := node.column - 1;
    if col < 0 || col > |line| {
      return false;
    }
    var was := node.value;
    if was == "" || !(was <= line[col..]) {
      return false;
    }
    assert line[col..][..|was|] == line[col..col + |was|];
    if !IsSafePlainScalar(newValue, isString) {
      return false;
    }
    lines[node.line - 1] := line[..col] + newValue + line[col + |was|..];
    return true;
  }

  /** The patches for some writes, if every key denotes a scalar. */
  ghost function PatchesOf(t: Tree, root: Node, writes: seq<Write>): (r: Option<seq<Patch>>)
    ensures r.Some? <==> forall i :: 0 <= i < |writes| ==> Resolve(t, root, writes[i].path).Some?
    ensures r.Some? ==>
              && |r.value| == |writes|
              && forall i :: 0 <= i < |writes| ==>
                  var n := Resolve(t, root, writes[i].path).value;
                  r.value[i] == PatchOf(n, At(t, n).value, writes[i].value)
  {
    if forall i :: 0 <= i < |writes| ==> Resolve(t, root, writes[i].path).Some? then
      Some(seq(|writes|, i requires 0 <= i < |writes| =>
          var n := Resolve(t, root, writes[i].path).value;
          PatchOf(n, At(t, n).value, writes[i].value)))
    else None
  }

  /** The patched text, None when the writes have to go through the tree. */
  ghost function InPlace(t: Tree, root: Node, text: string, writes: seq<Write>,
                         isString: string -> bool): Option<string> {
    var ps := PatchesOf(t, root, writes);
    if TextLayer.Blank(text) || ps.None? then None else Joined(ApplyAll(Split(text, '\n'), ps.value, Safe(isString)))
  }

  function Joined(lines: Option<seq<string>>): Option<string> {
    if lines.None? then None else Some(Join(lines.value, '\n'))
  }

  /** The first loop of patchHelmValuesInPlace. */
  method ResolveAll(root: Node, writes: seq<Write>, ghost w: set<Node>) returns (r: Option<seq<Node>>)
    requires Closed(Snapshot(w)) && root in w
    ensures r.None? ==> PatchesOf(Snapshot(w), root, writes).None?
    ensures r.Some? ==> |r.value| == |writes| && forall i :: 0 <= i < |writes| ==>
                          r.value[i] in w && Resolve(Snapshot(w), root, writes[i].path) == Some(r.value[i])
  {
    ghost var t := Snapshot(w);
    var nodes: seq<Node> := [];
    for i := 0 to |writes|
      invariant |nodes| == i
      invariant forall j :: 0 <= j < i ==> nodes[j] in w && Resolve(t, root, writes[j].path) == Some(nodes[j])
    {
      var node := ResolveHelmScalarNode(root, writes[i].path, w);
      if node.None? {
        return None;
      }
      ResolveInDocument(t, root, writes[i].path);
      nodes := nodes + [node.value];
    }
    return Some(nodes);
  }

  /** The second loop of patchHelmValuesInPlace. */
  method PatchAll(lines: array<string>, nodes: seq<Node>, writes: seq<Write>, isString: string -> bool,
                  ghost ps: seq<Patch>)
    returns (ok: bool)
    requires |nodes| == |writes| == |ps|
    requires forall i :: 0 <= i < |nodes| ==> ps[i] == PatchOf(nodes[i], nodes[i].value, writes[i].value)
    modifies lines
    ensures ok <==> ApplyAll(old(lines[..]), ps, Safe(isString)).Some?
    ensures ok ==> lines[..] == ApplyAll(old(lines[..]), ps, Safe(isString)).value
  {
    for i := 0 to |nodes|
      invariant ApplyAll(old(lines[..]), ps[..i], Safe(isString)) == Some(lines[..])
    {
      assert ps[..i + 1][..i] == ps[..i];
      ok := PatchScalarValue(lines, nodes[i], writes[i].value, isString);
      if !ok {
        FailsForGood(old(lines[..]), ps, Safe(isString), i + 1);
        return false;
      }
    }
    assert ps[..|ps|] == ps;
    return true;
  }

  /** One patch that fails makes all of them fail. */
  lemma {:induction false} FailsForGood(lines: seq<string>, ps: seq<Patch>, safe: string -> bool, n: nat)
    requires n <= |ps| && ApplyAll(lines, ps[..n], safe).None?
    ensures ApplyAll(lines, ps, safe).None?
    decreases |ps|
  {
    if n < |ps| {
      assert ps[..|ps| - 1][..n] == ps[..n];
      FailsForGood(lines, ps[..|ps| - 1], safe, n);
    } else {
      assert ps[..n] == ps;
    }
  }

  method PatchHelmValuesInPlace(root: Node, originalData: string, writes: seq<Write>, isString: string -> bool,
                                ghost w: set<Node>)
    returns (r: Option<string>)
    requires Closed(Snapshot(w)) && root in w
    ensures r == InPlace(Snapshot(w), root, originalData, writes, isString)
  {
    ghost var t := Snapshot(w);
    if TextLayer.SpaceEnd(originalData, 0) == |originalData| {
      return None;
    }
    var nodes := ResolveAll(root, writes, w);
    if nodes.None? {
      return None;
    }
    r := PatchText(originalData, nodes.value, writes, isString, PatchesOf(t, root, writes).value);
  }

  /** The patches for the nodes of some writes, on the lines of a text. */
  method PatchText(text: string, nodes: seq<Node>, writes: seq<Write>, isString: string -> bool,
                   ghost ps: seq<Patch>) returns (r: Option<string>)
    requires |nodes| == |writes| == |ps|
    requires forall i :: 0 <= i < |nodes| ==> ps[i] == PatchOf(nodes[i], nodes[i].value, writes[i].value)
    ensures r == Joined(ApplyAll(Split(text, '\n'), ps, Safe(isString)))
  {
    var split := Split(text, '\n');
    var lines := new string[|split|](i requires 0 <= i < |split| => split[i]);
    assert lines[..] == split;
    var ok := PatchAll(lines, nodes, writes, isString, ps);
    return if ok then Some(Join(lines[..], '\n')) else None;
  }

  lemma {:induction false} WalkInDocument(t: Tree, m: Node, keys: seq<string>)
    requires Closed(t) && m in t && t[m].kind.Mapping? && keys != []
    ensures Walk(t, m, keys).Hit? ==> Walk(t, m, keys).node in t
    decreases |keys|
  {
    var s := ParseSegment(keys[0]);
    if !s.BadIndex? {
      var e := Enter(t, m, s);
      if e.Into? {
        EnterInDocument(t, m, s);
        if |keys| > 1 && At(t, e.node).kind.Mapping? {
          WalkInDocument(t, e.node, keys[1..]);
        }
      }
    }
  }

  lemma EnterInDocument(t: Tree, m: Node, s: Segment)
    requires Closed(t) && m in t && t[m].kind.Mapping? && !s.BadIndex? && Enter(t, m, s).Into?
    ensures Enter(t, m, s).node in t
  {
    var idx := KeyIndex(t, t[m].content, s.name, 0);
    var v := t[m].content[idx.value];
    assert v in t && Deref(t, v) in t;
  }

  lemma ResolveInDocument(t: Tree, root: Node, key: string)
    requires Closed(t) && root in t && Resolve(t, root, key).Some?
    ensures Resolve(t, root, key).value in t
  {
    if t[root].kind.Document? {
      assert t[root].content[0] in t;
    }
    var m := RootMapping(t, root).value;
    WalkInDocument(t, m, Split(key, '.'));
    if Walk(t, m, Split(key, '.')).Miss? {
      var idx := KeyIndex(t, t[m].content, key, 0);
      assert t[m].content[idx.value] in t;
    }
  }

  // ---------------------------------------------------------------------------------------------
  // What the patched text is
  // ---------------------------------------------------------------------------------------------

  lemma {:induction false} RewriteHasNoNewline(line: string, ps: seq<Patch>, l: int, a: nat, b: nat)
    requires a <= b <= |line| && '\n' !in line && forall p :: p in ps ==> '\n' !in p.now
    ensures '\n' !in Rewrite(line, ps, NEW_TEXT, l, a, b)
    decreases b - a
  {
    if a < b {
      var p := PatchAt(ps, l, a + 1);
      var next := if p.Some? && p.value.was != "" && a + |p.value.was| <= b then a + |p.value.was| else a + 1;
      RewriteHasNoNewline(line, ps, l, next, b);
    }
  }

  lemma NewValuesHaveNoNewline(lines: seq<string>, ps: seq<Patch>, isString: string -> bool)
    requires AllHold(lines, ps, Safe(isString))
    ensures forall p :: p in ps ==> '\n' !in p.now
  {
    forall p | p in ps ensures '\n' !in p.now {
      assert Safe(isString)(p.now);
      assert IsSafePlainScalar(p.now, isString);
    }
  }

  /**
   Writes to disjoint spans that stand still succeed exactly if the text holds every old value where it
   was recorded and every new one is a safe scalar; the lines of the result are then those of the text,
   with every new value in the span of the old one and every other character as it was.
   */
  lemma PatchedText(t: Tree, root: Node, text: string, writes: seq<Write>, isString: string -> bool)
    requires PatchesOf(t, root, writes).Some?
    requires Disjoint(PatchesOf(t, root, writes).value) && Unshifted(PatchesOf(t, root, writes).value)
    ensures var ps, r := PatchesOf(t, root, writes).value, InPlace(t, root, text, writes, isString);
            && (r.Some? <==> !TextLayer.Blank(text) && AllHold(Split(text, '\n'), ps, Safe(isString)))
            && (r.Some? ==> Split(r.value, '\n') == Rewritten(Split(text, '\n'), ps, NEW_TEXT))
  {
    PatchedLines(text, PatchesOf(t, root, writes).value, isString);
  }

  lemma PatchedLines(text: string, ps: seq<Patch>, isString: string -> bool)
    requires Disjoint(ps) && Unshifted(ps)
    ensures var lines, r := Split(text, '\n'), Joined(ApplyAll(Split(text, '\n'), ps, Safe(isString)));
            && (r.Some? <==> AllHold(lines, ps, Safe(isString)))
            && (r.Some? ==> Split(r.value, '\n') == Rewritten(lines, ps, NEW_TEXT))
  {
    var lines := Split(text, '\n');
    ApplyAllRewrites(lines, ps, Safe(isString));
    if AllHold(lines, ps, Safe(isString)) {
      var rewritten := Rewritten(lines, ps, NEW_TEXT);
      assert forall i :: 0 <= i < |rewritten| ==> '\n' !in rewritten[i] by {
        SplitParts(text, '\n');
        NewValuesHaveNoNewline(lines, ps, isString);
        RewrittenHasNoNewline(lines, ps, rewritten);
      }
      SplitJoin(rewritten, '\n');
    }
  }

  lemma RewrittenHasNoNewline(lines: seq<string>, ps: seq<Patch>, rewritten: seq<string>)
    requires rewritten == Rewritten(lines, ps, NEW_TEXT)
    requires (forall i :: 0 <= i < |lines| ==> '\n' !in lines[i]) && forall p :: p in ps ==> '\n' !in p.now
    ensures forall i :: 0 <= i < |rewritten| ==> '\n' !in rewritten[i]
  {
    forall i | 0 <= i < |rewritten| ensures '\n' !in rewritten[i] {
      RewriteHasNoNewline(lines[i], ps, i + 1, 0, |lines[i]|);
    }
  }

  /** Two orders of the same writes have the same outcome if the spans stand still in both. */
  lemma OrderIndependent(t: Tree, root: Node, text: string, writes: seq<Write>, writes': seq<Write>,
                         isString: string -> bool)
    requires forall x :: x in writes <==> x in writes'
    requires forall ws :: ws in [writes, writes'] && PatchesOf(t, root, ws).Some? ==>
               Disjoint(PatchesOf(t, root, ws).value) && Unshifted(PatchesOf(t, root, ws).value)
    ensures InPlace(t, root, text, writes, isString) == InPlace(t, root, text, writes', isString)
  {
    SamePatches(t, root, writes, writes');
    SamePatches(t, root, writes', writes);
    assert writes in [writes, writes'] && writes' in [writes, writes'];
    if PatchesOf(t, root, writes).Some? {
      ApplySame(Split(text, '\n'), PatchesOf(t, root, writes).value, PatchesOf(t, root, writes').value, Safe(isString));
    }
  }

  lemma SamePatches(t: Tree, root: Node, writes: seq<Write>, writes': seq<Write>)
    requires forall x :: x in writes ==> x in writes'
    ensures PatchesOf(t, root, writes').Some? ==>
              && PatchesOf(t, root, writes).Some?
              && forall p :: p in PatchesOf(t, root, writes).value ==> p in PatchesOf(t, root, writes').value
  {
    if PatchesOf(t, root, writes').None? {
      return;
    }
    forall i | 0 <= i < |writes| ensures Resolve(t, root, writes[i].path).Some? {
      assert writes[i] in writes';
    }
    var ps, ps' := PatchesOf(t, root, writes).value, PatchesOf(t, root, writes').value;
    forall p | p in ps ensures p in ps' {
      var i :| 0 <= i < |ps| && ps[i] == p;
      assert writes[i] in writes';
      var j :| 0 <= j < |writes'| && writes'[j] == writes[i];
      assert ps'[j] == p;
    }
  }

  // ---------------------------------------------------------------------------------------------
  // The same writes through the tree
  // ---------------------------------------------------------------------------------------------

  /** The nested and the literal reading of a key do not compete, and a literal value is no alias. */
  ghost predicate Unambiguous(t: Tree, root: Node, key: string) {
    RootMapping(t, root).Some? &&
    (var m := RootMapping(t, root).value;
     var v, nested := Literal(t, m, key), Walk(t, m, Split(key, '.'));
     v.None? || nested == Hit(v.value) || (nested.Miss? && Deref(t, v.value) == v.value))
  }

  /** One write through the tree: the node it wrote, the nodes it created, and the tree it left. */
  datatype Stage = Stage(target: Node, chain: seq<Node>, after: Tree)

  /** `stages` records the writes of a sequence, made one after the other from `t` on. */
  ghost predicate TreeRun(t: Tree, root: Node, writes: seq<Write>, stages: seq<Stage>)
    decreases |writes|
  {
    && |stages| == |writes|
    && (writes != [] ==>
          && RootMapping(t, root).Some?
          && Wrote(t, stages[0].after, root, writes[0].path, writes[0].value, stages[0].target, stages[0].chain)
          && TreeRun(stages[0].after, root, writes[1..], stages[1..]))
  }

  /** A write to an existing scalar whose key is unambiguous goes to the node the key denotes and moves no path. */
  lemma WriteMovesNothing(t: Tree, t': Tree, root: Node, key: string, value: string, written: Node, chain: seq<Node>,
                          other: string)
    requires ValidDocument(t, root) && Wrote(t, t', root, key, value, written, chain)
    requires Resolve(t, root, key).Some? && Unambiguous(t, root, key)
    ensures written == Resolve(t, root, key).value
    ensures Resolve(t', root, other) == Resolve(t, root, other)
    ensures Unambiguous(t, root, other) ==> Unambiguous(t', root, other)
  {
    var tag := WritesText(t, t', root, key, value, written, chain);
    TextMovesNothing(t, root, written, value, tag, other);
  }

  /** Such a write changes the text of the node the key denotes, and nothing else. */
  lemma WritesText(t: Tree, t': Tree, root: Node, key: string, value: string, written: Node,
                   chain: seq<Node>) returns (tag: string)
    requires ValidDocument(t, root) && Wrote(t, t', root, key, value, written, chain)
    requires Resolve(t, root, key).Some? && Unambiguous(t, root, key)
    ensures written == Resolve(t, root, key).value && written in t && !IsKey(t, written)
    ensures t' == WithText(t, written, value, tag)
  {
    var m, keys := RootMapping(t, root).value, Split(key, '.');
    InPlaceTarget(t, t', root, key, value, written, chain);
    if Literal(t, m, key).Some? {
      LiteralIsNoKey(t, root, key);
      tag := t[written].tag;
    } else {
      WalkAndPlan(t, m, keys);
      PlanStays(t, m, keys);
      tag := "!!str";
    }
  }

  lemma TextMovesNothing(t: Tree, root: Node, n: Node, value: string, tag: string, other: string)
    requires ValidDocument(t, root) && n in t && !IsKey(t, n)
    ensures Resolve(WithText(t, n, value, tag), root, other) == Resolve(t, root, other)
    ensures Unambiguous(t, root, other) ==> Unambiguous(WithText(t, n, value, tag), root, other)
  {
    var m := RootMapping(t, root).value;
    assert RootMapping(WithText(t, n, value, tag), root) == Some(m);
    ResolveSame(t, n, value, tag, root, other);
    WalkSame(t, n, value, tag, m, Split(other, '.'));
    LookupSame(t, n, value, tag, m, other);
  }

  /** The keys of some writes lead where they led in `t0`, unambiguously. */
  ghost predicate Still(t0: Tree, t: Tree, root: Node, writes: seq<Write>) {
    && ValidDocument(t, root)
    && forall x :: x in writes ==>
        && Resolve(t, root, x.path).Some? && Resolve(t, root, x.path) == Resolve(t0, root, x.path)
        && Unambiguous(t, root, x.path)
  }

  lemma StillAfterWrite(t0: Tree, t: Tree, t': Tree, root: Node, writes: seq<Write>, x: Write, written: Node,
                        chain: seq<Node>)
    requires Still(t0, t, root, writes) && x in writes && Wrote(t, t', root, x.path, x.value, written, chain)
    ensures Still(t0, t', root, writes) && Resolve(t0, root, x.path) == Some(written)
  {
    KeepsValid(t, t', root, x.path, x.value, written, chain);
    forall y | y in writes
      ensures Resolve(t', root, y.path).Some? && Resolve(t', root, y.path) == Resolve(t0, root, y.path)
      ensures Unambiguous(t', root, y.path)
    {
      WriteMovesNothing(t, t', root, x.path, x.value, written, chain, y.path);
    }
    WriteMovesNothing(t, t', root, x.path, x.value, written, chain, x.path);
  }

  /**
   Every write of a run through the tree goes to the node the in-place path would patch, which it finds
   before the first write (in `t0`), and that node stays where its key leads.
   */
  lemma {:induction false} TreeWritesWhatIsPatched(t0: Tree, t: Tree, root: Node, all: seq<Write>, writes: seq<Write>,
                                                   stages: seq<Stage>)
    requires Still(t0, t, root, all) && TreeRun(t, root, writes, stages) && forall x :: x in writes ==> x in all
    ensures forall i :: 0 <= i < |writes| ==>
              Resolve(t0, root, writes[i].path) == Some(stages[i].target) && Still(t0, stages[i].after, root, all)
    decreases |writes|
  {
    if writes != [] {
      StillAfterWrite(t0, t, stages[0].after, root, all, writes[0], stages[0].target, stages[0].chain);
      TreeWritesWhatIsPatched(t0, stages[0].after, root, all, writes[1..], stages[1..]);
      forall i | 0 < i < |writes|
        ensures Resolve(t0, root, writes[i].path) == Some(stages[i].target) && Still(t0, stages[i].after, root, all)
      {
        assert writes[i] == writes[1..][i - 1] && stages[i] == stages[1..][i - 1];
      }
    }
  }
}

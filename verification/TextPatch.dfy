/**
 Replacing values in the lines of a text, one after the other, at the places recorded before the first
 replacement (pkg/argocd/update.go).

 A replacement that changes the length of a value moves what follows it on its line, so that a later
 patch on that line may no longer find its own span where it was recorded. The theorems say exactly
 when every patch does, and that the outcome is then the text with all spans replaced at once.
 */
module TextPatch {
  import opened Options
  import opened Sequences

  /** A value found at a place in the text and its replacement; lines and columns count from one. */
  datatype Patch = Patch(line: int, column: int, was: string, now: string)

  /** The text at the recorded place is the value the parser read there. */
  predicate Holds(lines: seq<string>, p: Patch) {
    && 1 <= p.line <= |lines|
    && HoldsOn(lines[p.line - 1], p)
  }

  predicate HoldsOn(line: string, p: Patch) {
    && 1 <= p.column <= |line| + 1
    && p.was != ""
    && p.column - 1 + |p.was| <= |line|
    && line[p.column - 1..p.column - 1 + |p.was|] == p.was
  }

  /** What replaces the span of a patch: its new text, or that text with a mark on every character. */
  type Paint<T> = Patch -> seq<T>

  function Spliced<T>(line: seq<T>, p: Patch, paint: Paint<T>): seq<T>
    requires 1 <= p.column && p.column - 1 + |p.was| <= |line|
  {
    line[..p.column - 1] + paint(p) + line[p.column - 1 + |p.was|..]
  }

  const NEW_TEXT: Paint<char> := (p: Patch) => p.now

  /** The recorded span lies inside the text. */
  predicate Fits<T>(lines: seq<seq<T>>, p: Patch) {
    1 <= p.line <= |lines| && 1 <= p.column && p.was != "" && p.column - 1 + |p.was| <= |lines[p.line - 1]|
  }

  function Put<T>(lines: seq<seq<T>>, p: Patch, paint: Paint<T>): seq<seq<T>>
    requires Fits(lines, p)
  {
    lines[p.line - 1 := Spliced(lines[p.line - 1], p, paint)]
  }

  function Apply(lines: seq<string>, p: Patch): seq<string>
    requires Holds(lines, p)
  {
    Put(lines, p, NEW_TEXT)
  }

  /** All patches in turn, None if one of them does not find its old value or has no safe new one. */
  function ApplyAll(lines: seq<string>, ps: seq<Patch>, safe: string -> bool): Option<seq<string>> {
    if ps == [] then Some(lines)
    else
      var before, p := ApplyAll(lines, ps[..|ps| - 1], safe), ps[|ps| - 1];
      if before.Some? && Holds(before.value, p) && safe(p.now) then Some(Apply(before.value, p)) else None
  }

  // ---------------------------------------------------------------------------------------------
  // All spans replaced at once
  // ---------------------------------------------------------------------------------------------

  /** The patch recorded at a place; the first of several. */
  function PatchAt(ps: seq<Patch>, line: int, column: int): (r: Option<Patch>)
    ensures r.Some? ==> r.value in ps && r.value.line == line && r.value.column == column
    ensures r.None? ==> forall p :: p in ps ==> !(p.line == line && p.column == column)
  {
    if ps == [] then None
    else
      var before, p := PatchAt(ps[..|ps| - 1], line, column), ps[|ps| - 1];
      if before.Some? then before else if p.line == line && p.column == column then Some(p) else None
  }

  /** The part of a line from offset `a` to `b`, with the span of every patch replaced. */
  function Rewrite<T>(line: seq<T>, ps: seq<Patch>, paint: Paint<T>, l: int, a: nat, b: nat): seq<T>
    requires a <= b <= |line|
    decreases b - a
  {
    if a == b then []
    else
      var p := PatchAt(ps, l, a + 1);
      if p.Some? && p.value.was != "" && a + |p.value.was| <= b then
        paint(p.value) + Rewrite(line, ps, paint, l, a + |p.value.was|, b)
      else [line[a]] + Rewrite(line, ps, paint, l, a + 1, b)
  }

  function Rewritten<T>(lines: seq<seq<T>>, ps: seq<Patch>, paint: Paint<T>): (r: seq<seq<T>>)
    ensures |r| == |lines|
    ensures forall i :: 0 <= i < |lines| ==> r[i] == Rewrite(lines[i], ps, paint, i + 1, 0, |lines[i]|)
  {
    seq(|lines|, i requires 0 <= i < |lines| => Rewrite(lines[i], ps, paint, i + 1, 0, |lines[i]|))
  }

  // ---------------------------------------------------------------------------------------------
  // Spans and how they move
  // ---------------------------------------------------------------------------------------------

  predicate Apart(p: Patch, q: Patch) {
    p.line == q.line ==> p.column + |p.was| <= q.column || q.column + |q.was| <= p.column
  }

  predicate ApartFrom(ps: seq<Patch>, p: Patch) {
    forall q :: q in ps ==> Apart(q, p)
  }

  /** No two patches are recorded for overlapping spans. */
  predicate Disjoint(ps: seq<Patch>) {
    forall i, j :: 0 <= i < j < |ps| ==> Apart(ps[i], ps[j])
  }

  /** The patch lies on the line and starts between the offsets `a` and `b`. */
  predicate StartsIn(p: Patch, l: int, a: int, b: int) {
    p.line == l && a <= p.column - 1 < b
  }

  /** By how much the patches that start between two offsets change the length of a line. */
  function Shift(ps: seq<Patch>, l: int, a: int, b: int): int {
    if ps == [] then 0
    else
      var p := ps[|ps| - 1];
      Shift(ps[..|ps| - 1], l, a, b) + if StartsIn(p, l, a, b) then |p.now| - |p.was| else 0
  }

  /** The patches before the `k`th do not, on balance, move its span. */
  predicate StandsStill(ps: seq<Patch>, k: nat)
    requires k < |ps|
  {
    Shift(ps[..k], ps[k].line, 0, ps[k].column - 1) == 0
  }

  predicate Unshifted(ps: seq<Patch>) {
    forall k :: 0 <= k < |ps| ==> StandsStill(ps, k)
  }

  /** The patch has a span, and it lies inside its line. */
  predicate SpanIn(p: Patch, length: nat) {
    1 <= p.column && p.was != "" && p.column - 1 + |p.was| <= length
  }

  predicate Inside(ps: seq<Patch>, l: int, length: nat) {
    forall p :: p in ps && p.line == l ==> SpanIn(p, length)
  }

  /** No span of the line goes across the offset. */
  predicate Cuts(ps: seq<Patch>, l: int, b: int) {
    forall p :: p in ps && p.line == l ==> b <= p.column - 1 || p.column - 1 + |p.was| <= b
  }

  lemma {:induction false} RewriteConcat<T>(line: seq<T>, ps: seq<Patch>, paint: Paint<T>, l: int, a: nat, b: nat,
                                            c: nat)
    requires a <= b <= c <= |line| && Cuts(ps, l, b)
    ensures Rewrite(line, ps, paint, l, a, c) == Rewrite(line, ps, paint, l, a, b) + Rewrite(line, ps, paint, l, b, c)
    decreases b - a
  {
    if a < b {
      var p := PatchAt(ps, l, a + 1);
      if p.Some? && p.value.was != "" && a + |p.value.was| <= c {
        var next := a + |p.value.was|;
        RewriteConcat(line, ps, paint, l, next, b, c);
        Regroup(paint(p.value), Rewrite(line, ps, paint, l, next, b), Rewrite(line, ps, paint, l, b, c));
      } else {
        RewriteConcat(line, ps, paint, l, a + 1, b, c);
        Regroup([line[a]], Rewrite(line, ps, paint, l, a + 1, b), Rewrite(line, ps, paint, l, b, c));
      }
    }
  }

  lemma {:induction false} ShiftSplit(ps: seq<Patch>, l: int, a: int, b: int, c: int)
    requires a <= b <= c
    ensures Shift(ps, l, a, c) == Shift(ps, l, a, b) + Shift(ps, l, b, c)
  {
    if ps != [] {
      ShiftSplit(ps[..|ps| - 1], l, a, b, c);
    }
  }

  lemma {:induction false} ShiftNone(ps: seq<Patch>, l: int, a: int, b: int)
    requires forall p :: p in ps ==> !StartsIn(p, l, a, b)
    ensures Shift(ps, l, a, b) == 0
  {
    if ps != [] {
      ShiftNone(ps[..|ps| - 1], l, a, b);
    }
  }

  /** Only one patch starts between the offsets. */
  lemma {:induction false} ShiftOne(ps: seq<Patch>, l: int, a: int, b: int, i: nat)
    requires i < |ps| && StartsIn(ps[i], l, a, b)
    requires forall j :: 0 <= j < |ps| && j != i ==> !StartsIn(ps[j], l, a, b)
    ensures Shift(ps, l, a, b) == |ps[i].now| - |ps[i].was|
  {
    var n := |ps| - 1;
    if i == n {
      ShiftNone(ps[..n], l, a, b);
    } else {
      ShiftOne(ps[..n], l, a, b, i);
    }
  }

  /** A span is the only one that starts there or inside it. */
  lemma ShiftAtSpan(ps: seq<Patch>, p: Patch)
    requires Disjoint(ps) && p in ps && forall q :: q in ps && q.line == p.line ==> q.was != ""
    ensures Shift(ps, p.line, p.column - 1, p.column - 1 + |p.was|) == |p.now| - |p.was|
  {
    var i :| 0 <= i < |ps| && ps[i] == p;
    forall j | 0 <= j < |ps| && j != i ensures !StartsIn(ps[j], p.line, p.column - 1, p.column - 1 + |p.was|) {
      assert if i < j then Apart(ps[i], ps[j]) else Apart(ps[j], ps[i]);
      assert ps[j] in ps;
    }
    ShiftOne(ps, p.line, p.column - 1, p.column - 1 + |p.was|, i);
  }

  /** The patches that start in the span of a patch are that patch alone. */
  predicate Alone(ps: seq<Patch>, p: Patch) {
    Shift(ps, p.line, p.column - 1, p.column - 1 + |p.was|) == |p.now| - |p.was|
  }

  predicate AllAlone(ps: seq<Patch>, l: int) {
    forall p :: p in ps && p.line == l ==> Alone(ps, p)
  }

  lemma DisjointAlone(ps: seq<Patch>, l: int)
    requires Disjoint(ps) && forall p :: p in ps && p.line == l ==> p.was != ""
    ensures AllAlone(ps, l)
  {
    forall p | p in ps && p.line == l ensures Alone(ps, p) {
      ShiftAtSpan(ps, p);
    }
  }

  /** The length of a rewritten part: every replaced span moves the rest by its change of length. */
  lemma {:induction false} RewriteLength<T>(line: seq<T>, ps: seq<Patch>, paint: Paint<T>, l: int, a: nat, b: nat)
    requires a <= b <= |line| && Cuts(ps, l, b) && AllAlone(ps, l) && Inside(ps, l, |line|)
    requires forall p :: |paint(p)| == |p.now|
    ensures |Rewrite(line, ps, paint, l, a, b)| == b - a + Shift(ps, l, a, b)
    decreases b - a
  {
    if a == b {
      ShiftNone(ps, l, a, b);
    } else {
      var p := PatchAt(ps, l, a + 1);
      if p.Some? {
        assert SpanIn(p.value, |line|) && Alone(ps, p.value) && a + |p.value.was| <= b;
        RewriteLength(line, ps, paint, l, a + |p.value.was|, b);
        ShiftSplit(ps, l, a, a + |p.value.was|, b);
      } else {
        RewriteLength(line, ps, paint, l, a + 1, b);
        ShiftOver(ps, l, a, b);
      }
    }
  }

  lemma ShiftOver(ps: seq<Patch>, l: int, a: int, b: int)
    requires a < b && PatchAt(ps, l, a + 1).None?
    ensures Shift(ps, l, a, b) == Shift(ps, l, a + 1, b)
  {
    ShiftNone(ps, l, a, a + 1);
    ShiftSplit(ps, l, a, a + 1, b);
  }

  /** Where no patch starts, nothing is rewritten. */
  lemma {:induction false} RewriteNothing<T>(line: seq<T>, ps: seq<Patch>, paint: Paint<T>, l: int, a: nat, b: nat)
    requires a <= b <= |line| && forall p :: p in ps ==> !StartsIn(p, l, a, b)
    ensures Rewrite(line, ps, paint, l, a, b) == line[a..b]
    decreases b - a
  {
    if a < b {
      assert PatchAt(ps, l, a + 1).None?;
      RewriteNothing(line, ps, paint, l, a + 1, b);
      assert line[a..b] == [line[a]] + line[a + 1..b];
    }
  }

  /** A further patch changes only the part in which it starts. */
  lemma {:induction false} RewriteElsewhere<T>(line: seq<T>, ps: seq<Patch>, p: Patch, paint: Paint<T>, l: int, a: nat,
                                               b: nat)
    requires a <= b <= |line| && !StartsIn(p, l, a, b)
    ensures Rewrite(line, ps + [p], paint, l, a, b) == Rewrite(line, ps, paint, l, a, b)
    decreases b - a
  {
    if a < b {
      assert (ps + [p])[..|ps|] == ps;
      var q := PatchAt(ps, l, a + 1);
      assert PatchAt(ps + [p], l, a + 1) == q;
      if q.Some? && q.value.was != "" && a + |q.value.was| <= b {
        RewriteElsewhere(line, ps, p, paint, l, a + |q.value.was|, b);
      } else {
        RewriteElsewhere(line, ps, p, paint, l, a + 1, b);
      }
    }
  }

  /** And there it replaces its span. */
  lemma RewriteSpan<T>(line: seq<T>, ps: seq<Patch>, p: Patch, paint: Paint<T>)
    requires 1 <= p.column && p.was != "" && p.column - 1 + |p.was| <= |line| && PatchAt(ps, p.line, p.column).None?
    ensures Rewrite(line, ps + [p], paint, p.line, p.column - 1, p.column - 1 + |p.was|) == paint(p)
  {
    assert (ps + [p])[..|ps|] == ps;
    assert PatchAt(ps + [p], p.line, p.column) == Some(p);
    assert paint(p) + [] == paint(p);
  }

  /** A line in three parts, around a span. */
  lemma RewriteInThree<T>(line: seq<T>, ps: seq<Patch>, paint: Paint<T>, l: int, a: nat, b: nat)
    requires a <= b <= |line| && Cuts(ps, l, a) && Cuts(ps, l, b)
    ensures Rewrite(line, ps, paint, l, 0, |line|) ==
            Rewrite(line, ps, paint, l, 0, a) + Rewrite(line, ps, paint, l, a, b) +
              Rewrite(line, ps, paint, l, b, |line|)
  {
    RewriteConcat(line, ps, paint, l, 0, a, |line|);
    RewriteConcat(line, ps, paint, l, a, b, |line|);
    Regroup(Rewrite(line, ps, paint, l, 0, a), Rewrite(line, ps, paint, l, a, b),
            Rewrite(line, ps, paint, l, b, |line|));
  }

  /** A span apart from the others neither cuts them nor holds the start of one. */
  lemma CutsAround(ps: seq<Patch>, p: Patch, length: nat)
    requires ApartFrom(ps, p) && Inside(ps, p.line, length) && SpanIn(p, length)
    ensures Cuts(ps, p.line, p.column - 1) && Cuts(ps, p.line, p.column - 1 + |p.was|)
    ensures Cuts(ps + [p], p.line, p.column - 1) && Cuts(ps + [p], p.line, p.column - 1 + |p.was|)
    ensures forall q :: q in ps ==> !StartsIn(q, p.line, p.column - 1, p.column - 1 + |p.was|)
    ensures PatchAt(ps, p.line, p.column).None?
  {
  }

  /** What a new patch finds: its span, moved by the change of length of what precedes it. */
  lemma SpanMoves<T>(line: seq<T>, ps: seq<Patch>, p: Patch, paint: Paint<T>)
    requires Disjoint(ps) && ApartFrom(ps, p) && Inside(ps, p.line, |line|) && SpanIn(p, |line|)
    requires forall q :: |paint(q)| == |q.now|
    ensures var c, w := p.column - 1, |p.was|;
            && 0 <= c && c + w <= |line|
            && |Rewrite(line, ps, paint, p.line, 0, c)| == c + Shift(ps, p.line, 0, c)
            && Rewrite(line, ps, paint, p.line, 0, |line|) ==
               Rewrite(line, ps, paint, p.line, 0, c) + line[c..c + w] + Rewrite(line, ps, paint, p.line, c + w, |line|)
  {
    var c, w := p.column - 1, |p.was|;
    assert Cuts(ps, p.line, c) && Cuts(ps, p.line, c + w) by {
      CutsAround(ps, p, |line|);
    }
    assert |Rewrite(line, ps, paint, p.line, 0, c)| == c + Shift(ps, p.line, 0, c) by {
      DisjointAlone(ps, p.line);
      RewriteLength(line, ps, paint, p.line, 0, c);
    }
    assert Rewrite(line, ps, paint, p.line, c, c + w) == line[c..c + w] by {
      CutsAround(ps, p, |line|);
      RewriteNothing(line, ps, paint, p.line, c, c + w);
    }
    JoinParts(line, ps, paint, p.line, c, c + w,
              Rewrite(line, ps, paint, p.line, 0, c), line[c..c + w], Rewrite(line, ps, paint, p.line, c + w, |line|));
  }

  /** The parts of a line rewritten with a patch more. */
  lemma PartsMore<T>(line: seq<T>, ps: seq<Patch>, p: Patch, paint: Paint<T>, c: nat, w: nat)
    requires ApartFrom(ps, p) && Inside(ps, p.line, |line|) && SpanIn(p, |line|) && c == p.column - 1 && w == |p.was|
    requires c + w <= |line|
    ensures Rewrite(line, ps + [p], paint, p.line, 0, c) == Rewrite(line, ps, paint, p.line, 0, c)
    ensures Rewrite(line, ps + [p], paint, p.line, c, c + w) == paint(p)
    ensures Rewrite(line, ps + [p], paint, p.line, c + w, |line|) == Rewrite(line, ps, paint, p.line, c + w, |line|)
  {
    assert Rewrite(line, ps + [p], paint, p.line, 0, c) == Rewrite(line, ps, paint, p.line, 0, c) by {
      RewriteElsewhere(line, ps, p, paint, p.line, 0, c);
    }
    assert Rewrite(line, ps + [p], paint, p.line, c + w, |line|) == Rewrite(line, ps, paint, p.line, c + w, |line|) by {
      RewriteElsewhere(line, ps, p, paint, p.line, c + w, |line|);
    }
    assert PatchAt(ps, p.line, p.column).None? by {
      CutsAround(ps, p, |line|);
    }
    RewriteSpan(line, ps, p, paint);
  }

  lemma RewriteMore<T>(line: seq<T>, ps: seq<Patch>, p: Patch, paint: Paint<T>, c: nat, w: nat, first: seq<T>,
                       last: seq<T>)
    requires ApartFrom(ps, p) && Inside(ps, p.line, |line|) && SpanIn(p, |line|) && c == p.column - 1 && w == |p.was|
    requires c + w <= |line|
    requires first == Rewrite(line, ps, paint, p.line, 0, c) && last == Rewrite(line, ps, paint, p.line, c + w, |line|)
    ensures Rewrite(line, ps + [p], paint, p.line, 0, |line|) == first + paint(p) + last
  {
    var all := ps + [p];
    assert Cuts(all, p.line, c) && Cuts(all, p.line, c + w) by {
      CutsAround(ps, p, |line|);
    }
    assert Rewrite(line, all, paint, p.line, 0, c) == first && Rewrite(line, all, paint, p.line, c, c + w) == paint(p)
        && Rewrite(line, all, paint, p.line, c + w, |line|) == last by {
      PartsMore(line, ps, p, paint, c, w);
    }
    JoinParts(line, all, paint, p.line, c, c + w, first, paint(p), last);
  }

  lemma JoinParts<T>(line: seq<T>, ps: seq<Patch>, paint: Paint<T>, l: int, a: nat, b: nat, first: seq<T>,
                     second: seq<T>, third: seq<T>)
    requires a <= b <= |line| && Cuts(ps, l, a) && Cuts(ps, l, b)
    requires Rewrite(line, ps, paint, l, 0, a) == first && Rewrite(line, ps, paint, l, a, b) == second
    requires Rewrite(line, ps, paint, l, b, |line|) == third
    ensures Rewrite(line, ps, paint, l, 0, |line|) == first + second + third
  {
    RewriteInThree(line, ps, paint, l, a, b);
  }

  /** A rewritten line around the span of a patch, before and after that patch is among those rewritten. */
  lemma Around<T>(line: seq<T>, ps: seq<Patch>, p: Patch, paint: Paint<T>, c: nat, w: nat) returns (first: seq<T>,
                  last: seq<T>)
    requires Disjoint(ps) && ApartFrom(ps, p) && Inside(ps, p.line, |line|) && SpanIn(p, |line|)
    requires forall q :: |paint(q)| == |q.now|
    requires c == p.column - 1 && w == |p.was| && c + w <= |line|
    ensures |first| == c + Shift(ps, p.line, 0, c)
    ensures Rewrite(line, ps, paint, p.line, 0, |line|) == first + line[c..c + w] + last
    ensures Rewrite(line, ps + [p], paint, p.line, 0, |line|) == first + paint(p) + last
  {
    first, last := Rewrite(line, ps, paint, p.line, 0, c), Rewrite(line, ps, paint, p.line, c + w, |line|);
    SpanMoves(line, ps, p, paint);
    RewriteMore(line, ps, p, paint, c, w, first, last);
  }

  lemma SplicedParts<T>(first: seq<T>, span: seq<T>, last: seq<T>, now: seq<T>, p: Patch, paint: Paint<T>)
    requires |first| == p.column - 1 && |span| == |p.was| && now == first + span + last
    ensures now[|first|..|first| + |span|] == span
    ensures Spliced(now, p, paint) == first + paint(p) + last
  {
    assert now[..|first|] == first && now[|first| + |span|..] == last;
  }

  // ---------------------------------------------------------------------------------------------
  // All patches in turn
  // ---------------------------------------------------------------------------------------------

  predicate AllHold(lines: seq<string>, ps: seq<Patch>, safe: string -> bool) {
    forall p :: p in ps ==> Holds(lines, p) && safe(p.now)
  }

  /** A patch whose span has not moved finds it among the rewritten lines, and rewrites it. */
  lemma PutRewrites<T>(lines: seq<seq<T>>, ps: seq<Patch>, p: Patch, paint: Paint<T>, now: seq<seq<T>>,
                       after: seq<seq<T>>)
    requires Disjoint(ps) && ApartFrom(ps, p) && Shift(ps, p.line, 0, p.column - 1) == 0
    requires forall q :: |paint(q)| == |q.now|
    requires Fits(lines, p) && Inside(ps, p.line, |lines[p.line - 1]|)
    requires now == Rewritten(lines, ps, paint) && after == Rewritten(lines, ps + [p], paint)
    ensures Fits(now, p) && Put(now, p, paint) == after
    ensures now[p.line - 1][p.column - 1..p.column - 1 + |p.was|] ==
            lines[p.line - 1][p.column - 1..p.column - 1 + |p.was|]
  {
    var c, w := p.column - 1, |p.was|;
    var first, last := Around(lines[p.line - 1], ps, p, paint, c, w);
    SplicedParts(first, lines[p.line - 1][c..c + w], last, now[p.line - 1], p, paint);
    OtherLines(lines, ps, p, paint);
    PutOnly(now, after, p, paint);
  }

  lemma InsideIfFits<T>(lines: seq<seq<T>>, ps: seq<Patch>, p: Patch)
    requires Fits(lines, p) && forall q :: q in ps ==> Fits(lines, q)
    ensures Inside(ps, p.line, |lines[p.line - 1]|)
  {
  }

  lemma PutOnly<T>(lines: seq<seq<T>>, lines': seq<seq<T>>, p: Patch, paint: Paint<T>)
    requires Fits(lines, p) && |lines'| == |lines| && lines'[p.line - 1] == Spliced(lines[p.line - 1], p, paint)
    requires forall i :: 0 <= i < |lines| && i != p.line - 1 ==> lines[i] == lines'[i]
    ensures Put(lines, p, paint) == lines'
  {
  }

  lemma OtherLines<T>(lines: seq<seq<T>>, ps: seq<Patch>, p: Patch, paint: Paint<T>)
    ensures forall i :: 0 <= i < |lines| && i != p.line - 1 ==>
              Rewritten(lines, ps, paint)[i] == Rewritten(lines, ps + [p], paint)[i]
  {
    forall i | 0 <= i < |lines| && i != p.line - 1
      ensures Rewritten(lines, ps, paint)[i] == Rewritten(lines, ps + [p], paint)[i]
    {
      RewriteElsewhere(lines[i], ps, p, paint, i + 1, 0, |lines[i]|);
    }
  }

  /** A patch that has not moved finds its old value among the patched lines exactly if it did in the text. */
  lemma HoldsStill(lines: seq<string>, ps: seq<Patch>, p: Patch, now: seq<string>, after: seq<string>)
    requires Disjoint(ps) && ApartFrom(ps, p)
    requires (forall q :: q in ps ==> Holds(lines, q)) && Shift(ps, p.line, 0, p.column - 1) == 0
    requires now == Rewritten(lines, ps, NEW_TEXT) && after == Rewritten(lines, ps + [p], NEW_TEXT)
    ensures Holds(now, p) <==> Holds(lines, p)
    ensures Holds(lines, p) ==> Apply(now, p) == after
  {
    if Fits(lines, p) {
      InsideIfFits(lines, ps, p);
      PutRewrites(lines, ps, p, NEW_TEXT, now, after);
    } else {
      HeldByNeither(lines, ps, p, now);
    }
  }

  lemma HeldByNeither(lines: seq<string>, ps: seq<Patch>, p: Patch, now: seq<string>)
    requires Disjoint(ps) && ApartFrom(ps, p) && !Fits(lines, p) && |now| == |lines|
    requires (forall q :: q in ps ==> Holds(lines, q)) && Shift(ps, p.line, 0, p.column - 1) == 0
    requires 1 <= p.line <= |lines| ==>
               now[p.line - 1] == Rewrite(lines[p.line - 1], ps, NEW_TEXT, p.line, 0, |lines[p.line - 1]|)
    ensures !Holds(now, p) && !Holds(lines, p)
  {
    if 1 <= p.line <= |lines| && 1 <= p.column && p.was != "" {
      AllInside(lines, ps, p.line);
      HeldByNoLine(lines[p.line - 1], ps, p, now[p.line - 1]);
    }
  }

  lemma HeldByNoLine(line: string, ps: seq<Patch>, p: Patch, now: string)
    requires Disjoint(ps) && ApartFrom(ps, p) && Inside(ps, p.line, |line|) && Shift(ps, p.line, 0, p.column - 1) == 0
    requires 1 <= p.column && p.was != "" && p.column - 1 + |p.was| > |line|
    requires now == Rewrite(line, ps, NEW_TEXT, p.line, 0, |line|)
    ensures !HoldsOn(now, p) && !HoldsOn(line, p)
  {
    PastTheEnd(line, ps, p);
  }

  lemma AllInside(lines: seq<string>, ps: seq<Patch>, l: int)
    requires 1 <= l <= |lines| && forall q :: q in ps ==> Holds(lines, q)
    ensures Inside(ps, l, |lines[l - 1]|)
  {
  }

  /** A span that goes past the end of its line still does. */
  lemma PastTheEnd(line: string, ps: seq<Patch>, p: Patch)
    requires Disjoint(ps) && ApartFrom(ps, p) && Inside(ps, p.line, |line|) && Shift(ps, p.line, 0, p.column - 1) == 0
    requires 1 <= p.column && p.was != "" && p.column - 1 + |p.was| > |line|
    ensures |Rewrite(line, ps, NEW_TEXT, p.line, 0, |line|)| == |line|
  {
    var c := p.column - 1;
    DisjointAlone(ps, p.line);
    RewriteLength(line, ps, NEW_TEXT, p.line, 0, |line|);
    if c <= |line| {
      ShiftSplit(ps, p.line, 0, c, |line|);
      ShiftNone(ps, p.line, c, |line|);
    } else {
      ShiftSplit(ps, p.line, 0, |line|, c);
      ShiftNone(ps, p.line, |line|, c);
    }
  }

  lemma DisjointInit(ps: seq<Patch>, p: Patch)
    requires Disjoint(ps + [p])
    ensures Disjoint(ps) && ApartFrom(ps, p)
  {
    var all := ps + [p];
    forall i, j | 0 <= i < j < |ps| ensures Apart(ps[i], ps[j]) {
      assert all[i] == ps[i] && all[j] == ps[j];
    }
    forall i | 0 <= i < |ps| ensures Apart(ps[i], p) {
      assert all[i] == ps[i] && all[|ps|] == p;
    }
  }

  lemma UnshiftedInit(ps: seq<Patch>, p: Patch)
    requires Unshifted(ps + [p])
    ensures Unshifted(ps) && Shift(ps, p.line, 0, p.column - 1) == 0
  {
    var all := ps + [p];
    assert StandsStill(all, |ps|) && all[..|ps|] == ps;
    forall k | 0 <= k < |ps| ensures StandsStill(ps, k) {
      assert StandsStill(all, k) && all[..k] == ps[..k];
    }
  }

  /**
   Patches to disjoint spans that stand still succeed exactly if the text holds every old value where it
   was recorded and every new one is safe; the outcome is then the text with all spans replaced at once.
   */
  lemma {:induction false} ApplyAllRewrites(lines: seq<string>, ps: seq<Patch>, safe: string -> bool)
    requires Disjoint(ps) && Unshifted(ps)
    ensures ApplyAll(lines, ps, safe).Some? <==> AllHold(lines, ps, safe)
    ensures ApplyAll(lines, ps, safe).Some? ==> ApplyAll(lines, ps, safe).value == Rewritten(lines, ps, NEW_TEXT)
    decreases |ps|
  {
    if ps == [] {
      RewrittenByNone(lines, NEW_TEXT);
    } else {
      var init, p := ps[..|ps| - 1], ps[|ps| - 1];
      assert ps == init + [p];
      DisjointInit(init, p);
      UnshiftedInit(init, p);
      ApplyAllRewrites(lines, init, safe);
      if AllHold(lines, init, safe) {
        HoldsStill(lines, init, p, Rewritten(lines, init, NEW_TEXT), Rewritten(lines, init + [p], NEW_TEXT));
      }
    }
  }

  // ---------------------------------------------------------------------------------------------
  // The order of the patches
  // ---------------------------------------------------------------------------------------------

  lemma SamePatchAt(ps: seq<Patch>, qs: seq<Patch>, l: int, column: int)
    requires Disjoint(qs) && (forall p :: p in ps <==> p in qs) && (forall p :: p in qs ==> p.was != "")
    ensures PatchAt(ps, l, column) == PatchAt(qs, l, column)
  {
    var a, b := PatchAt(ps, l, column), PatchAt(qs, l, column);
    if a.Some? && b.Some? {
      OneAtAPlace(qs, a.value, b.value);
    }
  }

  lemma OneAtAPlace(ps: seq<Patch>, p: Patch, q: Patch)
    requires Disjoint(ps) && p in ps && q in ps && p.line == q.line && p.column == q.column && p.was != ""
    requires q.was != ""
    ensures p == q
  {
    var i :| 0 <= i < |ps| && ps[i] == p;
    var j :| 0 <= j < |ps| && ps[j] == q;
  }

  lemma {:induction false} RewriteSame(line: string, ps: seq<Patch>, qs: seq<Patch>, l: int, a: nat, b: nat)
    requires Disjoint(qs)
    requires (forall p :: p in ps <==> p in qs) && (forall p :: p in qs ==> p.was != "") && a <= b <= |line|
    ensures Rewrite(line, ps, NEW_TEXT, l, a, b) == Rewrite(line, qs, NEW_TEXT, l, a, b)
    decreases b - a
  {
    if a < b {
      SamePatchAt(ps, qs, l, a + 1);
      var p := PatchAt(ps, l, a + 1);
      RewriteSame(line, ps, qs, l,
                  if p.Some? && p.value.was != "" && a + |p.value.was| <= b then a + |p.value.was| else a + 1, b);
    }
  }

  /** Two orders of the same patches have the same outcome if the spans stand still in both. */
  lemma ApplySame(lines: seq<string>, ps: seq<Patch>, qs: seq<Patch>, safe: string -> bool)
    requires Disjoint(ps) && Unshifted(ps) && Disjoint(qs) && Unshifted(qs) && forall p :: p in ps <==> p in qs
    ensures ApplyAll(lines, ps, safe) == ApplyAll(lines, qs, safe)
  {
    ApplyAllRewrites(lines, ps, safe);
    ApplyAllRewrites(lines, qs, safe);
    if AllHold(lines, qs, safe) {
      forall i | 0 <= i < |lines| ensures Rewritten(lines, ps, NEW_TEXT)[i] == Rewritten(lines, qs, NEW_TEXT)[i] {
        RewriteSame(lines[i], ps, qs, i + 1, 0, |lines[i]|);
      }
      assert Rewritten(lines, ps, NEW_TEXT) == Rewritten(lines, qs, NEW_TEXT);
    }
  }

  /** The patches of every line go from right to left. */
  predicate RightToLeft(ps: seq<Patch>) {
    forall i, j :: 0 <= i < j < |ps| && ps[i].line == ps[j].line ==> ps[j].column <= ps[i].column
  }

  /** From right to left no span moves; in particular none does on distinct lines. */
  lemma RightToLeftStandsStill(ps: seq<Patch>)
    requires RightToLeft(ps)
    ensures Unshifted(ps)
  {
    forall k | 0 <= k < |ps| ensures StandsStill(ps, k) {
      ShiftNone(ps[..k], ps[k].line, 0, ps[k].column - 1);
    }
  }

  // ---------------------------------------------------------------------------------------------
  // Whose characters a patch replaces
  // ---------------------------------------------------------------------------------------------

  /** A character and the offset in its line it had at first, or -1 for one that a patch brought. */
  datatype Glyph = Glyph(c: char, origin: int)

  function Marked(line: string): (r: seq<Glyph>)
    ensures |r| == |line| && forall i :: 0 <= i < |r| ==> r[i] == Glyph(line[i], i)
  {
    seq(|line|, i requires 0 <= i < |line| => Glyph(line[i], i))
  }

  function Brought(text: string): (r: seq<Glyph>)
    ensures |r| == |text| && forall i :: 0 <= i < |r| ==> r[i] == Glyph(text[i], -1)
  {
    seq(|text|, i requires 0 <= i < |text| => Glyph(text[i], -1))
  }

  const NEW_GLYPHS: Paint<Glyph> := (p: Patch) => Brought(p.now)

  function Unmarked(line: seq<Glyph>): (r: string)
    ensures |r| == |line| && forall i :: 0 <= i < |r| ==> r[i] == line[i].c
  {
    seq(|line|, i requires 0 <= i < |line| => line[i].c)
  }

  function MarkedLines(lines: seq<string>): (r: seq<seq<Glyph>>)
    ensures |r| == |lines| && forall i :: 0 <= i < |r| ==> r[i] == Marked(lines[i])
  {
    seq(|lines|, i requires 0 <= i < |lines| => Marked(lines[i]))
  }

  function UnmarkedLines(lines: seq<seq<Glyph>>): (r: seq<string>)
    ensures |r| == |lines| && forall i :: 0 <= i < |r| ==> r[i] == Unmarked(lines[i])
  {
    seq(|lines|, i requires 0 <= i < |lines| => Unmarked(lines[i]))
  }

  /** The same patches in turn, on marked characters. */
  function ApplyAllMarked(lines: seq<seq<Glyph>>, ps: seq<Patch>, safe: string -> bool): (r: Option<seq<seq<Glyph>>>) {
    if ps == [] then Some(lines)
    else
      var before, p := ApplyAllMarked(lines, ps[..|ps| - 1], safe), ps[|ps| - 1];
      if before.Some? && Holds(UnmarkedLines(before.value), p) && safe(p.now) then
        Some(Put(before.value, p, NEW_GLYPHS))
      else None
  }

  lemma UnmarkedPut(lines: seq<seq<Glyph>>, p: Patch)
    requires Fits(lines, p)
    ensures UnmarkedLines(Put(lines, p, NEW_GLYPHS)) == Put(UnmarkedLines(lines), p, NEW_TEXT)
  {
    var c, w, line := p.column - 1, |p.was|, lines[p.line - 1];
    assert Unmarked(Spliced(line, p, NEW_GLYPHS)) == Spliced(Unmarked(line), p, NEW_TEXT);
  }

  /** Marks change nothing: the marked characters are those of the text. */
  lemma {:induction false} MarksAreHarmless(lines: seq<string>, ps: seq<Patch>, safe: string -> bool)
    ensures var r, m := ApplyAll(lines, ps, safe), ApplyAllMarked(MarkedLines(lines), ps, safe);
            (r.Some? <==> m.Some?) && (m.Some? ==> UnmarkedLines(m.value) == r.value)
    decreases |ps|
  {
    if ps == [] {
      forall i | 0 <= i < |lines| ensures Unmarked(Marked(lines[i])) == lines[i] {
      }
      assert UnmarkedLines(MarkedLines(lines)) == lines;
    } else {
      MarksAreHarmless(lines, ps[..|ps| - 1], safe);
      var before, p := ApplyAllMarked(MarkedLines(lines), ps[..|ps| - 1], safe), ps[|ps| - 1];
      if before.Some? && Holds(UnmarkedLines(before.value), p) {
        UnmarkedPut(before.value, p);
      }
    }
  }

  /** At the recorded place lie the very characters the patch was recorded for. */
  predicate FindsItsOwn(lines: seq<string>, now: seq<seq<Glyph>>, p: Patch) {
    Fits(now, p) && Fits(lines, p) &&
    (var c, w := p.column - 1, |p.was|;
     now[p.line - 1][c..c + w] == Marked(lines[p.line - 1])[c..c + w])
  }

  /** The `k`th patch replaces exactly the characters it was recorded for. */
  predicate TakesItsOwn(lines: seq<string>, ps: seq<Patch>, safe: string -> bool, k: nat)
    requires k < |ps|
  {
    var before := ApplyAllMarked(MarkedLines(lines), ps[..k], safe);
    before.Some? && FindsItsOwn(lines, before.value, ps[k])
  }

  predicate AllTakeTheirOwn(lines: seq<string>, ps: seq<Patch>, safe: string -> bool) {
    forall k :: 0 <= k < |ps| ==> TakesItsOwn(lines, ps, safe, k)
  }

  /** The characters of a rewritten part were there at first or have been brought. */
  lemma {:induction false} Origins(line: string, ps: seq<Patch>, l: int, a: nat, b: nat, i: nat)
    requires a <= b <= |line| && i < |Rewrite(Marked(line), ps, NEW_GLYPHS, l, a, b)|
    ensures var g := Rewrite(Marked(line), ps, NEW_GLYPHS, l, a, b)[i];
            g.origin == -1 || a <= g.origin < b
    decreases b - a
  {
    if a < b {
      var p := PatchAt(ps, l, a + 1);
      var taken := p.Some? && p.value.was != "" && a + |p.value.was| <= b;
      var next := if taken then a + |p.value.was| else a + 1;
      var start := if taken then NEW_GLYPHS(p.value) else [Marked(line)[a]];
      var rest := Rewrite(Marked(line), ps, NEW_GLYPHS, l, next, b);
      assert Rewrite(Marked(line), ps, NEW_GLYPHS, l, a, b) == start + rest;
      if i >= |start| {
        assert (start + rest)[i] == rest[i - |start|];
        Origins(line, ps, l, next, b, i - |start|);
      }
    }
  }

  lemma AllOrigins(line: string, ps: seq<Patch>, l: int, a: nat, b: nat, part: seq<Glyph>)
    requires a <= b <= |line| && part == Rewrite(Marked(line), ps, NEW_GLYPHS, l, a, b)
    ensures forall i :: 0 <= i < |part| ==> part[i].origin == -1 || a <= part[i].origin < b
  {
    forall i | 0 <= i < |part| ensures part[i].origin == -1 || a <= part[i].origin < b {
      Origins(line, ps, l, a, b, i);
    }
  }

  /** A marked line around the span of a patch. */
  lemma AroundMarked(line: string, ps: seq<Patch>, p: Patch, c: nat, w: nat) returns (first: seq<Glyph>,
                     last: seq<Glyph>)
    requires Disjoint(ps) && ApartFrom(ps, p) && Inside(ps, p.line, |line|) && SpanIn(p, |line|) && c == p.column - 1
    requires w == |p.was| && c + w <= |line|
    ensures |first| == c + Shift(ps, p.line, 0, c)
    ensures Rewrite(Marked(line), ps, NEW_GLYPHS, p.line, 0, |line|) == first + Marked(line)[c..c + w] + last
    ensures forall i :: 0 <= i < |first| ==> first[i].origin < c
    ensures forall i :: 0 <= i < |last| ==> last[i].origin == -1 || last[i].origin >= c + w
  {
    first, last := Rewrite(Marked(line), ps, NEW_GLYPHS, p.line, 0, c), Rewrite(Marked(line), ps, NEW_GLYPHS, p.line,
                           c + w, |line|);
    SpanMoves(Marked(line), ps, p, NEW_GLYPHS);
    AllOrigins(line, ps, p.line, 0, c, first);
    AllOrigins(line, ps, p.line, c + w, |line|, last);
  }

  /** A span that has moved is not where it was recorded. */
  lemma MovedAway(line: string, ps: seq<Patch>, p: Patch, c: nat, now: seq<Glyph>)
    requires Disjoint(ps) && ApartFrom(ps, p) && Inside(ps, p.line, |line|) && SpanIn(p, |line|) && c == p.column - 1
    requires p.was != "" && c + |p.was| <= |line|
    requires now == Rewrite(Marked(line), ps, NEW_GLYPHS, p.line, 0, |line|) && c < |now| && now[c].origin == c
    ensures Shift(ps, p.line, 0, c) == 0
  {
    var first, last := AroundMarked(line, ps, p, c, |p.was|);
    OnlyThere(first, Marked(line)[c..c + |p.was|], last, now, c);
  }

  lemma OnlyThere(first: seq<Glyph>, span: seq<Glyph>, last: seq<Glyph>, now: seq<Glyph>, c: nat)
    requires now == first + span + last && c < |now| && now[c].origin == c
    requires forall i :: 0 <= i < |first| ==> first[i].origin < c
    requires forall i :: 0 <= i < |span| ==> span[i].origin == c + i
    requires forall i :: 0 <= i < |last| ==> last[i].origin != c
    ensures |first| == c
  {
  }

  lemma RewrittenByNone<T>(lines: seq<seq<T>>, paint: Paint<T>)
    ensures Rewritten(lines, [], paint) == lines
  {
    forall i | 0 <= i < |lines| ensures Rewritten(lines, [], paint)[i] == lines[i] {
      RewriteNothing(lines[i], [], paint, i + 1, 0, |lines[i]|);
    }
  }

  /** Marked characters are rewritten like the others. */
  lemma {:induction false} MarkedRewrites(lines: seq<string>, ps: seq<Patch>, safe: string -> bool)
    requires Disjoint(ps) && Unshifted(ps) && AllHold(lines, ps, safe)
    ensures ApplyAllMarked(MarkedLines(lines), ps, safe) == Some(Rewritten(MarkedLines(lines), ps, NEW_GLYPHS))
    decreases |ps|
  {
    if ps == [] {
      RewrittenByNone(MarkedLines(lines), NEW_GLYPHS);
    } else {
      var init, p := ps[..|ps| - 1], ps[|ps| - 1];
      assert ps == init + [p];
      ApplyAllRewrites(lines, ps, safe);
      MarksAreHarmless(lines, ps, safe);
      DisjointInit(init, p);
      UnshiftedInit(init, p);
      MarkedRewrites(lines, init, safe);
      MarkedStep(lines, init, p, safe);
    }
  }

  lemma MarkedStep(lines: seq<string>, ps: seq<Patch>, p: Patch, safe: string -> bool)
    requires Disjoint(ps) && ApartFrom(ps, p) && Shift(ps, p.line, 0, p.column - 1) == 0
    requires AllHold(lines, ps + [p], safe)
    requires ApplyAllMarked(MarkedLines(lines), ps, safe) == Some(Rewritten(MarkedLines(lines), ps, NEW_GLYPHS))
    requires ApplyAllMarked(MarkedLines(lines), ps + [p], safe).Some?
    ensures ApplyAllMarked(MarkedLines(lines), ps + [p], safe) ==
            Some(Rewritten(MarkedLines(lines), ps + [p], NEW_GLYPHS))
  {
    var g := MarkedLines(lines);
    assert (ps + [p])[..|ps|] == ps;
    MarkedFits(lines, ps, p, safe);
    PutRewrites(g, ps, p, NEW_GLYPHS, Rewritten(g, ps, NEW_GLYPHS), Rewritten(g, ps + [p], NEW_GLYPHS));
  }

  lemma MarkedFits(lines: seq<string>, ps: seq<Patch>, p: Patch, safe: string -> bool)
    requires AllHold(lines, ps + [p], safe)
    ensures Fits(MarkedLines(lines), p) && Inside(ps, p.line, |lines[p.line - 1]|)
  {
    assert p in ps + [p];
    InsideIfFits(lines, ps, p);
  }

  /** Among rewritten lines a patch finds its own characters exactly if its span has not moved. */
  lemma FindsOwnIfStill(lines: seq<string>, ps: seq<Patch>, p: Patch, now: seq<seq<Glyph>>)
    requires Disjoint(ps) && ApartFrom(ps, p) && Fits(lines, p) && Inside(ps, p.line, |lines[p.line - 1]|)
    requires now == Rewritten(MarkedLines(lines), ps, NEW_GLYPHS)
    ensures FindsItsOwn(lines, now, p) <==> Shift(ps, p.line, 0, p.column - 1) == 0
  {
    if Shift(ps, p.line, 0, p.column - 1) == 0 {
      PutRewrites(MarkedLines(lines), ps, p, NEW_GLYPHS, now, Rewritten(MarkedLines(lines), ps + [p], NEW_GLYPHS));
    } else if FindsItsOwn(lines, now, p) {
      OwnIsStill(lines[p.line - 1], ps, p, now[p.line - 1]);
    }
  }

  /** Given that those before it do, a patch takes its own characters exactly if its span stands still. */
  lemma OwnIfStill(lines: seq<string>, init: seq<Patch>, p: Patch, safe: string -> bool)
    requires Disjoint(init) && ApartFrom(init, p) && AllHold(lines, init + [p], safe) && Unshifted(init)
    ensures TakesItsOwn(lines, init + [p], safe, |init|) <==> Shift(init, p.line, 0, p.column - 1) == 0
  {
    var ps := init + [p];
    assert ps[..|init|] == init && forall q :: q in init ==> q in ps;
    MarkedRewrites(lines, init, safe);
    MarkedFits(lines, init, p, safe);
    FindsOwnIfStill(lines, init, p, Rewritten(MarkedLines(lines), init, NEW_GLYPHS));
  }

  lemma OwnIsStill(line: string, ps: seq<Patch>, p: Patch, now: seq<Glyph>)
    requires Disjoint(ps) && ApartFrom(ps, p) && Inside(ps, p.line, |line|) && SpanIn(p, |line|) && 1 <= p.column
    requires p.was != ""
    requires p.column - 1 + |p.was| <= |line| && p.column - 1 + |p.was| <= |now|
    requires now == Rewrite(Marked(line), ps, NEW_GLYPHS, p.line, 0, |line|)
    requires now[p.column - 1..p.column - 1 + |p.was|] == Marked(line)[p.column - 1..p.column - 1 + |p.was|]
    ensures Shift(ps, p.line, 0, p.column - 1) == 0
  {
    var c := p.column - 1;
    assert now[c] == now[c..c + |p.was|][0] == Marked(line)[c..c + |p.was|][0];
    MovedAway(line, ps, p, c, now);
  }

  /** What a patch takes and whether it stands still depends only on those before it. */
  lemma OnlyBefore(lines: seq<string>, ps: seq<Patch>, p: Patch, safe: string -> bool, k: nat)
    requires k < |ps|
    ensures StandsStill(ps + [p], k) <==> StandsStill(ps, k)
    ensures TakesItsOwn(lines, ps + [p], safe, k) <==> TakesItsOwn(lines, ps, safe, k)
  {
    assert (ps + [p])[..k] == ps[..k];
  }

  /** For patches to disjoint spans of the text: all take their own characters exactly if all spans stand still. */
  lemma {:induction false} OwnExactlyIfUnshifted(lines: seq<string>, ps: seq<Patch>, safe: string -> bool)
    requires Disjoint(ps) && AllHold(lines, ps, safe)
    ensures AllTakeTheirOwn(lines, ps, safe) <==> Unshifted(ps)
    decreases |ps|
  {
    if ps != [] {
      var init, p := ps[..|ps| - 1], ps[|ps| - 1];
      assert ps == init + [p];
      DisjointInit(init, p);
      OwnExactlyIfUnshifted(lines, init, safe);
      ExtendBoth(lines, init, p, safe);
    }
  }

  lemma ExtendBoth(lines: seq<string>, init: seq<Patch>, p: Patch, safe: string -> bool)
    requires Disjoint(init) && ApartFrom(init, p) && AllHold(lines, init + [p], safe)
    requires (AllTakeTheirOwn(lines, init, safe) <==> Unshifted(init))
    ensures AllTakeTheirOwn(lines, init + [p], safe) <==> Unshifted(init + [p])
  {
    var ps := init + [p];
    forall k | 0 <= k < |init|
      ensures StandsStill(ps, k) <==> StandsStill(init, k)
      ensures TakesItsOwn(lines, ps, safe, k) <==> TakesItsOwn(lines, init, safe, k)
    {
      OnlyBefore(lines, init, p, safe, k);
    }
    assert ps[..|init|] == init;
    if Unshifted(init) {
      OwnIfStill(lines, init, p, safe);
    }
  }

  /**
   In a flow mapping, a longer value for the first key moves the second value away, and the second patch
   hits the second key instead, which happens to read the same; in the other order both hit their values.
   */
  lemma SameLineCounterexample(safe: string -> bool)
    requires safe("pppp") && safe("c")
    ensures var line, p, q := "{a: p, b: b}", Patch(1, 5, "p", "pppp"), Patch(1, 11, "b", "c");
            && Disjoint([p, q]) && Holds([line], p) && Holds([line], q) && !StandsStill([p, q], 1)
            && ApplyAll([line], [p, q], safe) == Some(["{a: pppp, c: b}"])
            && ApplyAll([line], [q, p], safe) == Some(["{a: pppp, b: c}"])
  {
    var line, p, q := "{a: p, b: b}", Patch(1, 5, "p", "pppp"), Patch(1, 11, "b", "c");
    assert ApplyAll([line], [p, q], safe) == Some(["{a: pppp, c: b}"]) by {
      PutOne(line, p, "{a: pppp, b: b}", safe);
      PutTwo(line, p, "{a: pppp, b: b}", q, "{a: pppp, c: b}", safe);
    }
    assert ApplyAll([line], [q, p], safe) == Some(["{a: pppp, b: c}"]) by {
      PutOne(line, q, "{a: p, b: c}", safe);
      PutTwo(line, q, "{a: p, b: c}", p, "{a: pppp, b: c}", safe);
    }
    assert !StandsStill([p, q], 1) by {
      assert [p, q][..1] == [p] && [p][..0] == [];
      assert Shift([p], 1, 0, 10) == Shift([], 1, 0, 10) + 3;
    }
  }

  lemma PutOne(line: string, p: Patch, after: string, safe: string -> bool)
    requires p.line == 1 && HoldsOn(line, p) && safe(p.now) && Spliced(line, p, NEW_TEXT) == after
    ensures ApplyAll([line], [p], safe) == Some([after])
  {
    assert [p][..0] == [];
    assert ApplyAll([line], [], safe) == Some([line]);
    assert Apply([line], p) == [after];
  }

  lemma PutTwo(line: string, p: Patch, between: string, q: Patch, after: string, safe: string -> bool)
    requires ApplyAll([line], [p], safe) == Some([between])
    requires q.line == 1 && HoldsOn(between, q) && safe(q.now) && Spliced(between, q, NEW_TEXT) == after
    ensures ApplyAll([line], [p, q], safe) == Some([after])
  {
    assert [p, q][..1] == [p];
    assert Apply([between], q) == [after];
  }
}

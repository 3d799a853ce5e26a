/**
 The format-preserving text layer (pkg/argocd/git.go, pkg/argocd/update.go).

 Blank lines are carried through a YAML library as marker comments; the leading run of comments,
 blank lines and directives is cut off and restored verbatim; and two independently written scanners
 look for the document-start marker. Text is a sequence of characters.
 */
module TextLayer {
  import opened Options
  import opened Strings
  import opened Sequences

  const BLANK_LINE_MARKER := "# __preserve_blank_line__"

  /** unicode.IsSpace */
  predicate IsSpace(c: char) {
    || c == '\t' || c == '\n' || c == '\r' || c == ' ' || c == 0x0B as char || c == 0x0C as char
    || c == 0x85 as char || c == 0xA0 as char || c == 0x1680 as char
    || 0x2000 as char <= c <= 0x200A as char
    || c == 0x2028 as char || c == 0x2029 as char || c == 0x202F as char || c == 0x205F as char
    || c == 0x3000 as char
  }

  /** Where the white space that starts at `k` ends. */
  function SpaceEnd(s: string, k: nat): (n: nat)
    requires k <= |s|
    ensures k <= n <= |s|
    ensures n < |s| ==> !IsSpace(s[n])
    decreases |s| - k
  {
    if k < |s| && IsSpace(s[k]) then SpaceEnd(s, k + 1) else k
  }

  /** Where the text ends whose trailing white space ends at `k`. */
  function TextEnd(s: string, k: nat): (n: nat)
    requires k <= |s|
    ensures n <= k
    ensures k > 0 && !IsSpace(s[0]) ==> n > 0
  {
    if k > 0 && IsSpace(s[k - 1]) then TextEnd(s, k - 1) else k
  }

  function TrimSpace(s: string): (r: string)
    ensures r == "" <==> Blank(s)
    ensures r != "" ==> r[0] == s[SpaceEnd(s, 0)]
  {
    var left := s[SpaceEnd(s, 0)..];
    left[..TextEnd(left, |left|)]
  }

  predicate Blank(line: string) {
    SpaceEnd(line, 0) == |line|
  }

  lemma {:induction false} AllSpaces(s: string, k: nat, i: nat)
    requires k <= |s| && k <= i < SpaceEnd(s, k)
    ensures IsSpace(s[i])
    decreases i - k
  {
    if k < i {
      AllSpaces(s, k + 1, i);
    }
  }

  /** Blank lines, comments and directives: what may precede a document. */
  predicate Skippable(line: string) {
    var n := SpaceEnd(line, 0);
    n == |line| || line[n] == '#' || line[n] == '%'
  }

  /** A line is skipped exactly if it is white space, or its first other character starts a comment or a directive. */
  lemma SkippableIs(line: string)
    ensures Blank(line) <==> forall i :: 0 <= i < |line| ==> IsSpace(line[i])
    ensures Skippable(line) <==>
            || (forall i :: 0 <= i < |line| ==> IsSpace(line[i]))
            || (exists i :: 0 <= i < |line| && line[i] in "#%" && forall j :: 0 <= j < i ==> IsSpace(line[j]))
  {
    var n := SpaceEnd(line, 0);
    forall i | 0 <= i < n ensures IsSpace(line[i]) {
      AllSpaces(line, 0, i);
    }
    assert n < |line| ==> !IsSpace(line[n]);
    forall i | 0 <= i < |line| && line[i] in "#%" && forall j :: 0 <= j < i ==> IsSpace(line[j]) ensures i == n {
      assert !IsSpace(line[i]);
    }
  }

  // ---------------------------------------------------------------------------------------------
  // Encoding and decoding blank lines
  // ---------------------------------------------------------------------------------------------

  function EncodeLine(line: string): string {
    if Blank(line) then BLANK_LINE_MARKER else line
  }

  /** The encoding, line by line; the empty rest after a final newline is not a line. */
  function Encode(text: string): string
    decreases |text|
  {
    var (line, rest, found) := Cut(text, '\n');
    if found then EncodeLine(line) + "\n" + Encode(rest)
    else if text == "" then "" else EncodeLine(text)
  }

  /** The encoded lines; the empty rest after a final newline is not a line. */
  function EncodeLines(lines: seq<string>): (r: seq<string>)
    ensures |r| == |lines|
  {
    if |lines| == 0 || (|lines| == 1 && |lines[0]| == 0) then lines
    else [EncodeLine(lines[0])] + EncodeLines(lines[1..])
  }

  /** How many of the split lines are lines. */
  function LineCount(lines: seq<string>): nat
    requires lines != []
  {
    if |lines[|lines| - 1]| == 0 then |lines| - 1 else |lines|
  }

  /** encodeBlankLines */
  method EncodeBlankLines(data: string) returns (r: string)
    ensures r == Encode(data)
  {
    var lines := Split(data, '\n');
    var end := |lines|;
    if end > 0 && lines[end - 1] == "" {
      end := end - 1;
    }
    assert end == LineCount(lines);
    var overwritten := OverwriteBlankLines(lines, end);
    EncodedText(data, lines, overwritten);
    r := Join(overwritten, '\n');
  }

  /** Its loop: overwrites the blank ones among the first `end` lines. */
  method OverwriteBlankLines(original: seq<string>, end: nat) returns (lines: seq<string>)
    requires end <= |original|
    ensures |lines| == |original|
    ensures forall j :: 0 <= j < |lines| ==> lines[j] == if j < end then EncodeLine(original[j]) else original[j]
  {
    lines := original;
    for i := 0 to end
      invariant |lines| == |original|
      invariant forall j :: 0 <= j < |lines| ==> lines[j] == if j < i then EncodeLine(original[j]) else original[j]
    {
      if TrimSpace(lines[i]) == "" {
        lines := lines[i := BLANK_LINE_MARKER];
      }
    }
  }

  lemma {:induction false} EncodeLinesIs(lines: seq<string>, overwritten: seq<string>)
    requires lines != [] && |overwritten| == |lines|
    requires forall j :: 0 <= j < |lines| ==>
               overwritten[j] == if j < LineCount(lines) then EncodeLine(lines[j]) else lines[j]
    ensures overwritten == EncodeLines(lines)
  {
    assert overwritten == [overwritten[0]] + overwritten[1..];
    if |lines| > 1 {
      var tail, rest := lines[1..], overwritten[1..];
      assert LineCount(lines) == LineCount(tail) + 1;
      assert forall j :: 0 <= j < |tail| ==> rest[j] == overwritten[j + 1] && tail[j] == lines[j + 1];
      EncodeLinesIs(tail, rest);
    }
  }

  lemma EncodedText(data: string, lines: seq<string>, overwritten: seq<string>)
    requires lines == Split(data, '\n') && |overwritten| == |lines|
    requires forall j :: 0 <= j < |lines| ==>
               overwritten[j] == if j < LineCount(lines) then EncodeLine(lines[j]) else lines[j]
    ensures Join(overwritten, '\n') == Encode(data)
  {
    EncodeLinesIs(lines, overwritten);
    SplitParts(data, '\n');
    JoinEncoded(lines);
  }

  /** Encoding the lines and joining them is encoding the text they make up. */
  lemma {:induction false} JoinEncoded(lines: seq<string>)
    requires lines != [] && forall i :: 0 <= i < |lines| ==> '\n' !in lines[i]
    ensures Join(EncodeLines(lines), '\n') == Encode(Join(lines, '\n'))
  {
    if |lines| == 1 {
      EncodeLast(lines[0]);
    } else {
      JoinEncoded(lines[1..]);
      JoinFirst(EncodeLine(lines[0]), EncodeLines(lines[1..]), '\n');
      EncodeFirstOfText(lines[0], Join(lines[1..], '\n'));
    }
  }

  /** No line of the encoded text is blank, but for the empty rest after a final newline. */
  lemma NoLineIsBlank(text: string, i: nat)
    requires i < |Split(Encode(text), '\n')| && Blank(Split(Encode(text), '\n')[i])
    ensures i == |Split(Encode(text), '\n')| - 1 && Split(Encode(text), '\n')[i] == ""
  {
    var lines := Split(text, '\n');
    SplitParts(text, '\n');
    JoinEncoded(lines);
    EncodedLines(lines);
    SplitJoin(EncodeLines(lines), '\n');
    EncodedLineAt(lines, i);
  }

  lemma {:induction false} EncodedLines(lines: seq<string>)
    requires forall i :: 0 <= i < |lines| ==> '\n' !in lines[i]
    ensures forall i :: 0 <= i < |lines| ==> '\n' !in EncodeLines(lines)[i]
  {
    if !(|lines| == 0 || (|lines| == 1 && |lines[0]| == 0)) {
      EncodedIsLine(lines[0]);
      EncodedLines(lines[1..]);
    }
  }

  lemma {:induction false} EncodedLineAt(lines: seq<string>, i: nat)
    requires i < |lines| && Blank(EncodeLines(lines)[i])
    ensures i == |lines| - 1 && EncodeLines(lines)[i] == ""
  {
    EncodedIsNotBlank(lines[0]);
    if |lines| == 1 && |lines[0]| == 0 {
      assert lines[0] == "";
    } else if i > 0 {
      EncodedLineAt(lines[1..], i - 1);
    }
  }

  lemma EncodedIsNotBlank(line: string)
    ensures !Blank(EncodeLine(line))
  {
    assert BLANK_LINE_MARKER[0] == '#';
  }

  lemma EncodeLast(text: string)
    requires '\n' !in text
    ensures Encode(text) == if text == "" then "" else EncodeLine(text)
  {
    CutNone(text, '\n');
  }

  lemma EncodeFirstOfText(line: string, rest: string)
    requires '\n' !in line
    ensures Encode(line + "\n" + rest) == EncodeLine(line) + "\n" + Encode(rest)
  {
    CutFirst(line, '\n', rest);
  }

  /** bytes.ReplaceAll of a text followed by a newline by the newline alone. */
  function DropBeforeNewline(data: string, text: string): string {
    var pattern := text + "\n";
    if data == "" then ""
    else if pattern <= data then "\n" + DropBeforeNewline(data[|pattern|..], text)
    else [data[0]] + DropBeforeNewline(data[1..], text)
  }

  /** decodeBlankLines */
  function Decode(data: string): string {
    DropBeforeNewline(data, BLANK_LINE_MARKER)
  }

  function TrimSuffix(line: string, suffix: string): string {
    if HasSuffix(line, suffix) then line[..|line| - |suffix|] else line
  }

  lemma DropHere(rest: string, text: string)
    ensures DropBeforeNewline(text + "\n" + rest, text) == "\n" + DropBeforeNewline(rest, text)
  {
    var data, pattern := text + "\n" + rest, text + "\n";
    assert pattern <= data && data[|pattern|..] == rest;
  }

  lemma KeepOne(line: string, rest: string, text: string)
    requires '\n' !in line && '\n' !in text && line != text
    ensures var data := line + "\n" + rest;
            DropBeforeNewline(data, text) == [data[0]] + DropBeforeNewline(data[1..], text)
  {
    if text + "\n" <= line + "\n" + rest {
      MatchedLine(line, rest, text);
    }
  }

  /** Replacing works on whole lines: it cuts the text off the end of every terminated line. */
  lemma {:induction false} DropFromLine(line: string, rest: string, text: string)
    requires '\n' !in line && '\n' !in text && text != ""
    ensures DropBeforeNewline(line + "\n" + rest, text) == TrimSuffix(line, text) + "\n" + DropBeforeNewline(rest, text)
  {
    var data := line + "\n" + rest;
    if line == text {
      DropHere(rest, text);
    } else {
      KeepOne(line, rest, text);
      if line == "" {
        assert data[1..] == rest;
      } else {
        assert data[1..] == line[1..] + "\n" + rest;
        DropFromLine(line[1..], rest, text);
        TrimSuffixTail(line, text);
        Regroup([line[0]], TrimSuffix(line[1..], text) + "\n", DropBeforeNewline(rest, text));
        Regroup([line[0]], TrimSuffix(line[1..], text), "\n");
      }
    }
  }

  /** The pattern can only match a whole line. */
  lemma MatchedLine(line: string, rest: string, text: string)
    requires '\n' !in line && '\n' !in text && text + "\n" <= line + "\n" + rest
    ensures line == text
  {
    CutFirst(line, '\n', rest);
    var data, pattern := line + "\n" + rest, text + "\n";
    assert data == text + "\n" + data[|pattern|..];
    CutFirst(text, '\n', data[|pattern|..]);
  }

  lemma TrimSuffixTail(line: string, suffix: string)
    requires line != "" && line != suffix
    ensures TrimSuffix(line, suffix) == [line[0]] + TrimSuffix(line[1..], suffix)
  {
    var n := |suffix|;
    if |line| > n {
      assert line[1..][|line| - 1 - n..] == line[|line| - n..];
    }
  }

  lemma {:induction false} DropFromLastLine(data: string, text: string)
    requires '\n' !in data
    ensures DropBeforeNewline(data, text) == data
  {
    if data != "" {
      assert (text + "\n")[|text|] == '\n';
      DropFromLastLine(data[1..], text);
    }
  }

  function BlankedLine(line: string): string {
    if Blank(line) then "" else line
  }

  /** The text with every whitespace-only line emptied. */
  function Blanked(text: string): string
    decreases |text|
  {
    var (line, rest, found) := Cut(text, '\n');
    if found then BlankedLine(line) + "\n" + Blanked(rest) else BlankedLine(text)
  }

  /** No terminated line ends in the marker, and the text does not end in a run of white space. */
  predicate Decodable(text: string)
    decreases |text|
  {
    var (line, rest, found) := Cut(text, '\n');
    if found then !HasSuffix(line, BLANK_LINE_MARKER) && Decodable(rest)
    else text == "" || !Blank(text)
  }

  /** Decoding undoes encoding, up to white space on blank lines, for exactly the decodable texts. */
  lemma {:induction false} DecodeEncode(text: string)
    ensures Decode(Encode(text)) == Blanked(text) <==> Decodable(text)
    decreases |text|
  {
    var (line, rest, found) := Cut(text, '\n');
    CutParts(text, '\n');
    if found {
      DecodeEncode(rest);
      DropFromLine(EncodeLine(line), Encode(rest), BLANK_LINE_MARKER);
      DecodedLine(line);
      var a, b := TrimSuffix(EncodeLine(line), BLANK_LINE_MARKER), BlankedLine(line);
      SameLines(a, Decode(Encode(rest)), b, Blanked(rest));
    } else if text != "" {
      DropFromLastLine(EncodeLine(text), BLANK_LINE_MARKER);
    }
  }

  lemma DecodedLine(line: string)
    requires '\n' !in line
    ensures '\n' !in TrimSuffix(EncodeLine(line), BLANK_LINE_MARKER) && '\n' !in BlankedLine(line)
    ensures TrimSuffix(EncodeLine(line), BLANK_LINE_MARKER) == BlankedLine(line) <==>
            !HasSuffix(line, BLANK_LINE_MARKER)
  {
    assert TrimSuffix(BLANK_LINE_MARKER, BLANK_LINE_MARKER) == "";
    if HasSuffix(line, BLANK_LINE_MARKER) {
      var i := |line| - |BLANK_LINE_MARKER|;
      assert line[i] == line[i..][0] == '#';
      if Blank(line) {
        AllSpaces(line, 0, i);
      }
    }
  }

  /** Two texts are equal exactly if their first lines and what follows are. */
  lemma SameLines(a: string, s: string, b: string, t: string)
    requires '\n' !in a && '\n' !in b
    ensures a + "\n" + s == b + "\n" + t <==> a == b && s == t
  {
    CutFirst(a, '\n', s);
    CutFirst(b, '\n', t);
  }

  predicate EmptyBlankLines(text: string)
    decreases |text|
  {
    var (line, rest, found) := Cut(text, '\n');
    (Blank(line) ==> line == "") && (found ==> EmptyBlankLines(rest))
  }

  /** On text whose blank lines are empty the round trip is the identity, again exactly if decodable. */
  lemma {:induction false} RoundTrip(text: string)
    requires EmptyBlankLines(text)
    ensures Decode(Encode(text)) == text <==> Decodable(text)
  {
    DecodeEncode(text);
    BlankedIsSame(text);
  }

  lemma {:induction false} BlankedIsSame(text: string)
    requires EmptyBlankLines(text)
    ensures Blanked(text) == text
    decreases |text|
  {
    var (line, rest, found) := Cut(text, '\n');
    CutParts(text, '\n');
    if found {
      BlankedIsSame(rest);
    }
  }

  // ---------------------------------------------------------------------------------------------
  // Cutting off what precedes the document
  // ---------------------------------------------------------------------------------------------

  /** The length of the leading run of blank lines, comments and directives. */
  function PrefixLen(data: string): (n: nat)
    ensures n <= |data|
    decreases |data|
  {
    var (line, rest, found) := Cut(data, '\n');
    if !Skippable(line) then 0
    else if !found then |data|
    else |line| + 1 + PrefixLen(rest)
  }

  /** What follows the leading run. */
  function AfterPrefix(text: string): string {
    text[PrefixLen(text)..]
  }

  lemma PrefixFirst(line: string, rest: string)
    requires '\n' !in line
    ensures PrefixLen(line + "\n" + rest) == if Skippable(line) then |line| + 1 + PrefixLen(rest) else 0
  {
    CutFirst(line, '\n', rest);
  }

  /** leadingCommentPrefixLen; `current` is the data from the offset on. */
  method LeadingCommentPrefixLen(data: string) returns (n: nat)
    ensures n == PrefixLen(data)
  {
    var offset, current := 0, data;
    ghost var total := PrefixLen(data);
    while true
      invariant offset == |data| - |current|
      invariant total == offset + PrefixLen(current)
      decreases |current|
    {
      var (line, rest, found) := Cut(current, '\n');
      var trimmed := TrimSpace(line);
      if |trimmed| != 0 && trimmed[0] != '#' && trimmed[0] != '%' {
        return offset;
      }
      if !found {
        return |data|;
      }
      offset, current := |data| - |rest|, rest;
    }
  }

  lemma AfterPrefixFirst(line: string, rest: string)
    requires '\n' !in line
    ensures AfterPrefix(line + "\n" + rest) == if Skippable(line) then AfterPrefix(rest) else line + "\n" + rest
  {
    var text := line + "\n" + rest;
    PrefixFirst(line, rest);
    if Skippable(line) {
      assert text[|line| + 1..] == rest;
      assert text[|line| + 1 + PrefixLen(rest)..] == rest[PrefixLen(rest)..];
    } else {
      assert text[0..] == text;
    }
  }

  lemma AfterPrefixLast(line: string)
    requires '\n' !in line
    ensures AfterPrefix(line) == if Skippable(line) then "" else line
  {
    CutNone(line, '\n');
  }

  lemma SkippableEncoded(line: string)
    requires '\n' !in line
    ensures Skippable(EncodeLine(line)) <==> Skippable(line)
    ensures '\n' !in EncodeLine(line)
  {
    assert !IsSpace(BLANK_LINE_MARKER[0]);
  }

  /** Cutting the prefix off the encoded file is encoding what is left after cutting it off the file. */
  lemma {:induction false} CutAfterEncode(text: string)
    ensures AfterPrefix(Encode(text)) == Encode(AfterPrefix(text))
    decreases |text|
  {
    var (line, rest, found) := Cut(text, '\n');
    CutParts(text, '\n');
    SkippableEncoded(line);
    if found {
      CutAfterEncode(rest);
      AfterPrefixFirst(line, rest);
      AfterPrefixFirst(EncodeLine(line), Encode(rest));
    } else {
      AfterPrefixLast(text);
      EncodeLast(text);
      AfterPrefixLast(Encode(text));
    }
  }

  // ---------------------------------------------------------------------------------------------
  // Two scanners for the document-start marker
  // ---------------------------------------------------------------------------------------------

  predicate InCutset(c: char) {
    c == ' ' || c == '\t' || c == '\r' || c == '\n'
  }

  /** Where the text ends whose trailing cutset ends at `k`. */
  function CutsetStart(s: string, k: nat): (n: nat)
    requires k <= |s|
    ensures n <= k
    ensures forall i :: n <= i < k ==> InCutset(s[i])
    ensures n > 0 ==> !InCutset(s[n - 1])
  {
    if k > 0 && InCutset(s[k - 1]) then CutsetStart(s, k - 1) else k
  }

  /** bytes.TrimRight with the cutset " \t\r\n" */
  function TrimEnd(s: string): string {
    s[..CutsetStart(s, |s|)]
  }

  predicate MarkerInGit(line: string) {
    var trimmed := TrimEnd(line);
    |trimmed| >= 3 && trimmed[..3] == "---" && (|trimmed| == 3 || trimmed[3] == ' ' || trimmed[3] == '\t')
  }

  /** hasDocumentStartAt */
  predicate HasDocumentStartAt(data: string, prefixLen: nat)
    requires prefixLen <= |data|
  {
    MarkerInGit(Cut(data[prefixLen..], '\n').0)
  }

  predicate MarkerInUpdate(line: string) {
    line == "---" || "--- " <= line || "---\t" <= line
  }

  /** Everything up to and including the document-start marker's line, if there is one. */
  function DocumentStartPrefix(raw: string): Option<string>
    decreases |raw|
  {
    var (line, rest, found) := Cut(raw, '\n');
    if Skippable(line) then
      if !found then None
      else
        var prefix := DocumentStartPrefix(rest);
        if prefix.None? then None else Some(line + "\n" + prefix.value)
    else if MarkerInUpdate(line) then Some(line + "\n")
    else None
  }

  /** leadingDocumentStartPrefix */
  method LeadingDocumentStartPrefix(raw: string) returns (prefix: Option<string>)
    ensures prefix == DocumentStartPrefix(raw)
  {
    var lines := Split(raw, '\n');
    SplitParts(raw, '\n');
    var n := 0;
    while n < |lines|
      invariant n <= |lines|
      invariant forall i :: 0 <= i < n ==> Skippable(lines[i])
    {
      var trimmed := TrimSpace(lines[n]);
      if trimmed == "" || trimmed[0] == '#' || trimmed[0] == '%' {
        n := n + 1;
        continue;
      }
      break;
    }
    ScannedLines(lines, n);
    if n >= |lines| {
      return None;
    }
    var marker := lines[n];
    if marker != "---" && !("--- " <= marker) && !("---\t" <= marker) {
      return None;
    }
    return Some(Join(lines[..n + 1], '\n') + "\n");
  }

  lemma StartFirst(line: string, rest: string)
    requires '\n' !in line
    ensures DocumentStartPrefix(line + "\n" + rest) ==
            if Skippable(line) then
              (if DocumentStartPrefix(rest).None? then None else Some(line + "\n" + DocumentStartPrefix(rest).value))
            else if MarkerInUpdate(line) then Some(line + "\n") else None
  {
    CutFirst(line, '\n', rest);
  }

  lemma StartLast(line: string)
    requires '\n' !in line
    ensures DocumentStartPrefix(line) == if !Skippable(line) && MarkerInUpdate(line) then Some(line + "\n") else None
  {
    CutNone(line, '\n');
  }

  /** What the scan over the split lines finds. */
  lemma KeepFirst(lines: seq<string>, n: nat)
    requires 0 < n < |lines|
    ensures Join(lines[..n + 1], '\n') + "\n" == lines[0] + "\n" + (Join(lines[1..][..n], '\n') + "\n")
  {
    assert lines[..n + 1] == [lines[0]] + lines[1..][..n];
    JoinFirst(lines[0], lines[1..][..n], '\n');
  }

  lemma {:induction false} ScannedLines(lines: seq<string>, n: nat)
    requires lines != [] && n <= |lines|
    requires forall i :: 0 <= i < |lines| ==> '\n' !in lines[i]
    requires forall i :: 0 <= i < n ==> Skippable(lines[i])
    requires n < |lines| ==> !Skippable(lines[n])
    ensures DocumentStartPrefix(Join(lines, '\n')) ==
            if n < |lines| && MarkerInUpdate(lines[n]) then Some(Join(lines[..n + 1], '\n') + "\n") else None
  {
    var line, tail := lines[0], lines[1..];
    if |lines| == 1 {
      assert Join(lines, '\n') == line && lines[..1] == [line];
      StartLast(line);
    } else if n == 0 {
      assert lines[..1] == [line];
      StartFirst(line, Join(tail, '\n'));
    } else {
      ScannedLines(tail, n - 1);
      ScannedOn(lines, n);
    }
  }

  /** A skippable first line comes before what is kept of the others. */
  lemma ScannedOn(lines: seq<string>, n: nat)
    requires 0 < n <= |lines| && |lines| > 1 && '\n' !in lines[0] && Skippable(lines[0])
    requires DocumentStartPrefix(Join(lines[1..], '\n')) ==
             if n < |lines| && MarkerInUpdate(lines[n]) then Some(Join(lines[1..][..n], '\n') + "\n") else None
    ensures DocumentStartPrefix(Join(lines, '\n')) ==
            if n < |lines| && MarkerInUpdate(lines[n]) then Some(Join(lines[..n + 1], '\n') + "\n") else None
  {
    assert Join(lines, '\n') == lines[0] + "\n" + Join(lines[1..], '\n');
    StartFirst(lines[0], Join(lines[1..], '\n'));
    if n < |lines| {
      KeepFirst(lines, n);
    }
  }

  /** The marker line that only the scanner of git.go accepts: a carriage return follows the dashes. */
  predicate CarriageReturnMarker(line: string) {
    |line| > 3 && line[..3] == "---" && line[3] == '\r' && forall i :: 3 <= i < |line| ==> InCutset(line[i])
  }

  predicate Dashes(line: string) {
    |line| >= 3 && line[0] == '-' && line[1] == '-' && line[2] == '-'
  }

  lemma MarkersAgree(line: string)
    requires '\n' !in line
    ensures MarkerInGit(line) <==> MarkerInUpdate(line) || CarriageReturnMarker(line)
    ensures !(MarkerInUpdate(line) && CarriageReturnMarker(line))
  {
    var trimmed := TrimEnd(line);
    assert trimmed == line[..|trimmed|];
    assert Dashes(line) ==> |trimmed| >= 3;
  }

  /**
   The two scanners agree on whether a document starts, unless its marker is followed by a carriage
   return; and what update.go keeps is then the prefix git.go measures and the marker's line.
   */
  predicate Agree(raw: string) {
    var marker := Cut(AfterPrefix(raw), '\n').0;
    && (DocumentStartPrefix(raw).Some? <==> HasDocumentStartAt(raw, PrefixLen(raw)) && !CarriageReturnMarker(marker))
    && (DocumentStartPrefix(raw).Some? ==> DocumentStartPrefix(raw).value == raw[..PrefixLen(raw)] + marker + "\n")
  }

  lemma KeptFurtherOn(line: string, rest: string)
    requires '\n' !in line && Skippable(line)
    ensures var raw := line + "\n" + rest;
            raw[..PrefixLen(raw)] == line + "\n" + rest[..PrefixLen(rest)]
  {
    PrefixFirst(line, rest);
  }

  lemma AgreeFurtherOn(line: string, rest: string)
    requires '\n' !in line && Skippable(line) && Agree(rest)
    ensures Agree(line + "\n" + rest)
  {
    StartFirst(line, rest);
    AfterPrefixFirst(line, rest);
    KeptFurtherOn(line, rest);
    var kept, marker := rest[..PrefixLen(rest)], Cut(AfterPrefix(rest), '\n').0;
    Regroup(line + "\n", kept + marker, "\n");
    Regroup(line + "\n", kept, marker);
  }

  lemma AgreeHere(line: string, rest: string)
    requires '\n' !in line && !Skippable(line)
    ensures Agree(line + "\n" + rest)
  {
    MarkersAgree(line);
    StartFirst(line, rest);
    PrefixFirst(line, rest);
    AfterPrefixFirst(line, rest);
    CutFirst(line, '\n', rest);
    assert "" + line + "\n" == line + "\n";
  }

  lemma AgreeWithoutDocument(line: string)
    requires '\n' !in line && Skippable(line)
    ensures Agree(line)
  {
    StartLast(line);
    AfterPrefixLast(line);
    CutNone("", '\n');
  }

  lemma AgreeOnLastLine(line: string)
    requires '\n' !in line && !Skippable(line)
    ensures Agree(line)
  {
    StartLast(line);
    AfterPrefixLast(line);
    CutNone(line, '\n');
    MarkersAgree(line);
    assert line[..0] + line + "\n" == line + "\n";
  }

  lemma {:induction false} ScannersAgree(raw: string)
    ensures Agree(raw)
    decreases |raw|
  {
    var (line, rest, found) := Cut(raw, '\n');
    CutParts(raw, '\n');
    if !found {
      if Skippable(raw) {
        AgreeWithoutDocument(raw);
      } else {
        AgreeOnLastLine(raw);
      }
    } else if Skippable(line) {
      ScannersAgree(rest);
      AgreeFurtherOn(line, rest);
    } else {
      AgreeHere(line, rest);
    }
  }

  /** On text without carriage returns they agree outright. */
  lemma ScannersAgreeWithoutCarriageReturns(raw: string)
    requires '\r' !in raw
    ensures DocumentStartPrefix(raw).Some? <==> HasDocumentStartAt(raw, PrefixLen(raw))
  {
    ScannersAgree(raw);
    var body := AfterPrefix(raw);
    var marker := Cut(body, '\n').0;
    CutParts(body, '\n');
    if |marker| > 3 {
      assert marker[3] == body[3];
      assert body[3] in raw;
    }
  }

  // ---------------------------------------------------------------------------------------------
  // Writing a kustomization back
  // ---------------------------------------------------------------------------------------------

  /** The bytes updateKustomizeFile writes for the original `raw` and the YAML library's output. */
  function Restored(raw: string, out: string): string {
    var body := Decode(out);
    var marker := HasDocumentStartAt(raw, PrefixLen(raw)) && !("---" <= body);
    raw[..PrefixLen(raw)] + (if marker then "---\n" else "") + body
  }

  /** What becomes of a text that is encoded and decoded, line by line. */
  function RoundTripped(text: string): string
    decreases |text|
  {
    var (line, rest, found) := Cut(text, '\n');
    if found then TrimSuffix(EncodeLine(line), BLANK_LINE_MARKER) + "\n" + RoundTripped(rest)
    else if text == "" then "" else EncodeLine(text)
  }

  lemma EncodedIsLine(line: string)
    requires '\n' !in line
    ensures '\n' !in EncodeLine(line) && '\n' !in BLANK_LINE_MARKER && BLANK_LINE_MARKER != ""
  {
  }

  lemma {:induction false} RoundTrippedIs(text: string)
    ensures Decode(Encode(text)) == RoundTripped(text)
    decreases |text|
  {
    var (line, rest, found) := Cut(text, '\n');
    CutParts(text, '\n');
    EncodedIsLine(line);
    if found {
      RoundTrippedIs(rest);
      DropFromLine(EncodeLine(line), Encode(rest), BLANK_LINE_MARKER);
    } else if text != "" {
      DropFromLastLine(EncodeLine(text), BLANK_LINE_MARKER);
    }
  }

  /** A marker line is not blank, and stays one when the marker of a blank line is cut off its end. */
  lemma MarkerLine(line: string)
    requires MarkerInGit(line)
    ensures EncodeLine(line) == line && "---" <= line && "---" <= TrimSuffix(line, BLANK_LINE_MARKER)
  {
    var trimmed := TrimEnd(line);
    assert trimmed == line[..|trimmed|];
    assert line[0] == '-' && line[1] == '-' && line[2] == '-';
    assert !IsSpace(line[0]);
    if HasSuffix(line, BLANK_LINE_MARKER) {
      var i := |line| - |BLANK_LINE_MARKER|;
      assert line[i] == line[i..][0] == '#';
    }
  }

  lemma MarkerSurvives(body: string)
    requires MarkerInGit(Cut(body, '\n').0)
    ensures "---" <= RoundTripped(body)
  {
    MarkerLine(Cut(body, '\n').0);
  }

  lemma RestoredAsIs(raw: string, out: string, decoded: string, blanked: string)
    requires decoded == Decode(out) && (HasDocumentStartAt(raw, PrefixLen(raw)) ==> "---" <= decoded)
    ensures Restored(raw, out) == raw[..PrefixLen(raw)] + blanked <==> decoded == blanked
  {
    var prefix := raw[..PrefixLen(raw)];
    assert prefix + "" == prefix;
    Cancel(prefix, decoded, blanked);
  }

  /**
   If the library hands the body back as it was given it, the file keeps its leading lines verbatim
   and the rest up to white space on blank lines, exactly if the rest is decodable.
   */
  lemma RestoreBody(raw: string)
    ensures Restored(raw, AfterPrefix(Encode(raw))) == raw[..PrefixLen(raw)] + Blanked(AfterPrefix(raw)) <==>
            Decodable(AfterPrefix(raw))
  {
    var body := AfterPrefix(raw);
    CutAfterEncode(raw);
    RoundTripIsExact(body);
    RoundTrippedIs(body);
    if HasDocumentStartAt(raw, PrefixLen(raw)) {
      MarkerSurvives(body);
    }
    RestoredAsIs(raw, Encode(body), RoundTripped(body), Blanked(body));
  }

  /** Encoding and decoding do not put a line in front. */
  lemma {:induction false} NoExtraLine(text: string, extra: string)
    requires '\n' !in extra
    ensures RoundTripped(text) != extra + "\n" + Blanked(text)
    decreases |text|
  {
    var (line, rest, found) := Cut(text, '\n');
    CutParts(text, '\n');
    EncodedIsLine(line);
    if found {
      DecodedLine(line);
      NoExtraLine(rest, BlankedLine(line));
      SameLines(TrimSuffix(EncodeLine(line), BLANK_LINE_MARKER), RoundTripped(rest), extra, Blanked(text));
    } else {
      NewlineAt(extra, Blanked(text));
    }
  }

  lemma NewlineAt(line: string, rest: string)
    ensures '\n' in line + "\n" + rest
  {
    assert (line + "\n" + rest)[|line|] == '\n';
  }

  lemma RestoredWithMarker(raw: string, out: string, decoded: string, blanked: string)
    requires HasDocumentStartAt(raw, PrefixLen(raw)) && decoded == Decode(out) && decoded != "---" + "\n" + blanked
    ensures Restored(raw, out) == raw[..PrefixLen(raw)] + "---\n" + blanked <==>
            decoded == blanked && !("---" <= blanked)
  {
    MarkerPutBack(raw[..PrefixLen(raw)], decoded, blanked);
  }

  /**
   If the library drops a bare marker line, it comes back before what follows, exactly if that is decodable and does
   not look like a marker itself.
   */
  lemma RestoreMarker(raw: string, rest: string)
    requires AfterPrefix(raw) == "---" + "\n" + rest
    ensures Restored(raw, Encode(rest)) == raw[..PrefixLen(raw)] + "---\n" + Blanked(rest) <==>
            Decodable(rest) && !("---" <= Blanked(rest))
  {
    StartsWithMarker(raw, rest);
    RoundTripIsExact(rest);
    NoExtraLine(rest, "---");
    RestoredFromRest(raw, rest, RoundTripped(rest), Blanked(rest));
  }

  lemma RoundTripIsExact(text: string)
    ensures RoundTripped(text) == Blanked(text) <==> Decodable(text)
  {
    DecodeEncode(text);
    RoundTrippedIs(text);
  }

  lemma RestoredFromRest(raw: string, rest: string, decoded: string, blanked: string)
    requires HasDocumentStartAt(raw, PrefixLen(raw)) && decoded == RoundTripped(rest)
    requires decoded != "---" + "\n" + blanked
    ensures Restored(raw, Encode(rest)) == raw[..PrefixLen(raw)] + "---\n" + blanked <==>
            decoded == blanked && !("---" <= blanked)
  {
    RoundTrippedIs(rest);
    RestoredWithMarker(raw, Encode(rest), decoded, blanked);
  }

  lemma StartsWithMarker(raw: string, rest: string)
    requires AfterPrefix(raw) == "---" + "\n" + rest
    ensures HasDocumentStartAt(raw, PrefixLen(raw))
  {
    CutFirst("---", '\n', rest);
    assert MarkerInGit("---");
  }

  lemma MarkerPutBack(prefix: string, decoded: string, blanked: string)
    requires decoded != "---" + "\n" + blanked
    ensures prefix + (if "---" <= decoded then "" else "---\n") + decoded == prefix + "---\n" + blanked <==>
            decoded == blanked && !("---" <= blanked)
  {
    assert "---" + "\n" + blanked == "---\n" + blanked;
    assert prefix + "" == prefix;
    Cancel(prefix, decoded, "---\n" + blanked);
    Cancel(prefix + "---\n", decoded, blanked);
    assert prefix + "---\n" + blanked == prefix + ("---\n" + blanked);
  }

  /** A blank last line without a newline is turned into a marker that stays. */
  lemma BlankLastLineIsLost()
    ensures Decode(Encode(" ")) != Blanked(" ")
  {
    CutNone(" ", '\n');
    assert SpaceEnd(" ", 0) == SpaceEnd(" ", 1);
    DecodeEncode(" ");
  }

  /** A marker that ends in a carriage return is one for git.go and none for update.go. */
  lemma CarriageReturnDivides()
    ensures HasDocumentStartAt("---\r\n", PrefixLen("---\r\n")) && DocumentStartPrefix("---\r\n").None?
  {
    var raw, line := "---\r\n", "---\r";
    assert raw == line + "\n" + "";
    CutFirst(line, '\n', "");
    assert !Skippable(line) by { assert SpaceEnd(line, 0) == 0; }
    AfterPrefixFirst(line, "");
    assert CarriageReturnMarker(line);
    MarkersAgree(line);
    ScannersAgree(raw);
  }
}

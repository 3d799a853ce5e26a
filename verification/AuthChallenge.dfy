/**
 The WWW-Authenticate parser (authchallenge.go; section 2.2 of RFC 2616, section 1.2 of RFC 2617).

 The methods are the scanners with their index loops and escape buffer. Each is tied to a function
 on strings, and `ParseRendered` shows that those functions invert the rendering of a challenge.
 */
module AuthChallenge {
  import opened Options
  import opened Strings

  predicate IsSpace(c: char) {
    c == ' ' || c == '\t' || c == '\r' || c == '\n'
  }

  predicate IsSeparator(c: char) {
    || c == ' ' || c == '\t' || c == '"' || c == '(' || c == ')' || c == ',' || c == '/' || c == ':' || c == ';'
    || c == '<' || c == '=' || c == '>' || c == '?' || c == '@' || c == '[' || c == ']' || c == '\\'
    || c == '{' || c == '}'
  }

  /** Any US-ASCII character except control characters and separators. */
  predicate IsToken(c: char) {
    31 as char < c < 127 as char && !IsSeparator(c)
  }

  // ---------------------------------------------------------------------------------------------
  // What the scanners compute
  // ---------------------------------------------------------------------------------------------

  function SpaceEnd(s: string, k: nat): (n: nat)
    requires k <= |s|
    ensures k <= n <= |s|
    decreases |s| - k
  {
    if k < |s| && IsSpace(s[k]) then SpaceEnd(s, k + 1) else k
  }

  function TokenEnd(s: string, k: nat): (n: nat)
    requires k <= |s|
    ensures k <= n <= |s|
    decreases |s| - k
  {
    if k < |s| && IsToken(s[k]) then TokenEnd(s, k + 1) else k
  }

  function AfterSpace(s: string): (rest: string)
    ensures |rest| <= |s|
  {
    s[SpaceEnd(s, 0)..]
  }

  /** The longest token the string starts with, possibly empty, and the rest. */
  function Token(s: string): (r: (string, string))
    ensures |r.0| + |r.1| == |s|
  {
    (s[..TokenEnd(s, 0)], s[TokenEnd(s, 0)..])
  }

  /** The text of a quoted-string after its opening quote, given what is read and whether an escape is open. */
  function Unquoted(s: string, read: string, escape: bool): (r: (string, string))
    ensures |r.1| <= |s|
    decreases |s|
  {
    if s == "" then ("", "")
    else if escape then Unquoted(s[1..], read + [s[0]], false)
    else if s[0] == '\\' then Unquoted(s[1..], read, true)
    else if s[0] == '"' then (read, s[1..])
    else Unquoted(s[1..], read + [s[0]], false)
  }

  function TokenOrQuoted(s: string): (r: (string, string))
    ensures |r.1| <= |s|
  {
    if s == "" || s[0] != '"' then Token(s) else Unquoted(s[1..], "", false)
  }

  type Params = map<string, string>

  /** One parameter behind a comma, and what follows it; None where the parser stops. */
  function ReadParam(s: string): (r: Option<(string, string, string)>)
    ensures r.Some? ==> |r.value.2| < |s|
  {
    if s == "" || s[0] != ',' then None
    else
      var (key, afterKey) := Token(AfterSpace(s[1..]));
      if key == "" || afterKey == "" || afterKey[0] != '=' then None
      else
        var (value, afterValue) := TokenOrQuoted(afterKey[1..]);
        if value == "" then None else Some((ToLower(key), value, AfterSpace(afterValue)))
  }

  function ParseParams(s: string, params: Params): Params
    decreases |s|
  {
    match ReadParam(s)
    case None => params
    case Some((key, value, rest)) => ParseParams(rest, params[key := value])
  }

  function Parse(header: string): (string, Params) {
    var (scheme, rest) := Token(header);
    if scheme == "" then ("", map[]) else (ToLower(scheme), ParseParams("," + AfterSpace(rest), map[]))
  }

  // ---------------------------------------------------------------------------------------------
  // The scanners
  // ---------------------------------------------------------------------------------------------

  method SkipSpace(s: string) returns (rest: string)
    ensures rest == AfterSpace(s)
  {
    var i := 0;
    while i < |s|
      invariant i <= |s| && SpaceEnd(s, 0) == SpaceEnd(s, i)
    {
      if !IsSpace(s[i]) {
        break;
      }
      i := i + 1;
    }
    return s[i..];
  }

  method ExpectToken(s: string) returns (token: string, rest: string)
    ensures (token, rest) == Token(s)
  {
    var i := 0;
    while i < |s|
      invariant i <= |s| && TokenEnd(s, 0) == TokenEnd(s, i)
    {
      if !IsToken(s[i]) {
        break;
      }
      i := i + 1;
    }
    return s[..i], s[i..];
  }

  /** One character of a quoted-string. */
  lemma UnquotedStep(s: string, i: nat, read: string, escape: bool)
    requires i < |s|
    ensures Unquoted(s[i..], read, escape) ==
            if escape then Unquoted(s[i + 1..], read + [s[i]], false)
            else if s[i] == '\\' then Unquoted(s[i + 1..], read, true)
            else if s[i] == '"' then (read, s[i + 1..])
            else Unquoted(s[i + 1..], read + [s[i]], false)
  {
    assert s[i..][1..] == s[i + 1..];
  }

  method CopyPrefix(p: array<char>, s: string, n: nat)
    requires n <= |s| && n <= p.Length
    modifies p
    ensures p[..n] == s[..n]
  {
    for j := 0 to n
      invariant forall k :: 0 <= k < j ==> p[k] == s[k]
    {
      p[j] := s[j];
    }
  }

  /** The scan from the first escape on, filling the escape buffer; `s[start]` is the backslash. */
  method Unescape(s: string, start: nat) returns (value: string, rest: string)
    requires start < |s| && s[start] == '\\'
    ensures (value, rest) == Unquoted(s[start..], s[..start], false)
  {
    // One byte less than the text: the backslash itself is never stored.
    var p := new char[|s| - 1];
    CopyPrefix(p, s, start);
    ghost var expected := Unquoted(s[start..], s[..start], false);
    UnquotedStep(s, start, s[..start], false);
    var escape, i, j := true, start + 1, start;
    while i < |s|
      invariant start < i <= |s| && j <= i - 1
      invariant expected == Unquoted(s[i..], p[..j], escape)
    {
      var b := s[i];
      ghost var before := p[..j];
      UnquotedStep(s, i, before, escape);
      if escape {
        escape := false;
        p[j] := b;
        j := j + 1;
        assert p[..j] == before + [b];
      } else if b == '\\' {
        escape := true;
      } else if b == '"' {
        return p[..j], s[i + 1..];
      } else {
        p[j] := b;
        j := j + 1;
        assert p[..j] == before + [b];
      }
      i := i + 1;
    }
    return "", "";
  }

  method ExpectTokenOrQuoted(text: string) returns (value: string, rest: string)
    ensures (value, rest) == TokenOrQuoted(text)
  {
    if text == "" || text[0] != '"' {
      value, rest := ExpectToken(text);
      return;
    }
    var s := text[1..];
    var i := 0;
    while i < |s|
      invariant i <= |s|
      invariant Unquoted(s, "", false) == Unquoted(s[i..], s[..i], false)
    {
      if s[i] == '"' {
        return s[..i], s[i + 1..];
      } else if s[i] == '\\' {
        value, rest := Unescape(s, i);
        return;
      }
      assert s[..i + 1] == s[..i] + [s[i]];
      i := i + 1;
    }
    return "", "";
  }

  method ParseValueAndParams(header: string) returns (value: string, params: Params)
    ensures (value, params) == Parse(header)
  {
    params := map[];
    var s: string;
    value, s := ExpectToken(header);
    if value == "" {
      return;
    }
    value := ToLower(value);
    var trimmed := SkipSpace(s);
    s := "," + trimmed;
    ghost var expected := ParseParams(s, map[]);
    while s != "" && s[0] == ','
      invariant ParseParams(s, params) == expected
      decreases |s|
    {
      var pkey: string, pvalue: string;
      trimmed := SkipSpace(s[1..]);
      pkey, s := ExpectToken(trimmed);
      if pkey == "" {
        return;
      }
      if s == "" || s[0] != '=' {
        return;
      }
      pvalue, s := ExpectTokenOrQuoted(s[1..]);
      if pvalue == "" {
        return;
      }
      pkey := ToLower(pkey);
      params := params[pkey := pvalue];
      s := SkipSpace(s);
    }
  }

  // ---------------------------------------------------------------------------------------------
  // Rendering a challenge, and parsing it back
  // ---------------------------------------------------------------------------------------------

  predicate IsTokenText(s: string) {
    s != "" && forall i :: 0 <= i < |s| ==> IsToken(s[i])
  }

  predicate IsSpaces(s: string) {
    forall i :: 0 <= i < |s| ==> IsSpace(s[i])
  }

  /** What the text between the quotes of a quoted-string denotes, if it is well formed. */
  function Denoted(quoted: string): Option<string>
    decreases |quoted|
  {
    if quoted == "" then Some("")
    else if quoted[0] == '"' then None
    else if quoted[0] == '\\' then
      if |quoted| == 1 then None
      else
        var rest := Denoted(quoted[2..]);
        if rest.None? then None else Some([quoted[1]] + rest.value)
    else
      var rest := Denoted(quoted[1..]);
      if rest.None? then None else Some([quoted[0]] + rest.value)
  }

  /** A parameter as it may be written: a token or a quoted-string, with white space around it. */
  datatype Param = Param(key: string, value: string, text: string, before: string, after: string)

  /** `text` spells `value` as a token or as any well-formed quoted-string, with whatever it escapes. */
  predicate Spells(text: string, value: string) {
    || (IsTokenText(text) && value == text)
    || (|text| >= 2 && text[0] == '"' && text[|text| - 1] == '"' && Denoted(text[1..|text| - 1]) == Some(value))
  }

  predicate Renderable(p: Param) {
    IsTokenText(p.key) && Spells(p.text, p.value) && IsSpaces(p.before) && IsSpaces(p.after)
  }

  function RenderParam(p: Param): string {
    p.before + p.key + "=" + p.text + p.after
  }

  /** The parameters, each behind a comma. */
  function RenderTail(params: seq<Param>): string {
    if params == [] then "" else "," + RenderParam(params[0]) + RenderTail(params[1..])
  }

  function RenderParams(params: seq<Param>): string {
    if params == [] then "" else RenderParam(params[0]) + RenderTail(params[1..])
  }

  function Render(scheme: string, gap: string, params: seq<Param>): string {
    scheme + (gap + RenderParams(params))
  }

  /**
   Keys are read in lower case and a repeated key takes its last value; an empty value ends the
   parsing, so that it and all that follows is lost.
   */
  function Collected(params: seq<Param>, m: Params): Params {
    if params == [] || params[0].value == "" then m
    else Collected(params[1..], m[ToLower(params[0].key) := params[0].value])
  }

  lemma {:induction false} SpaceEndIs(s: string, k: nat, n: nat)
    requires k <= n <= |s|
    requires forall i :: k <= i < n ==> IsSpace(s[i])
    requires n < |s| ==> !IsSpace(s[n])
    ensures SpaceEnd(s, k) == n
    decreases n - k
  {
    if k < n {
      SpaceEndIs(s, k + 1, n);
    }
  }

  lemma {:induction false} TokenEndIs(s: string, k: nat, n: nat)
    requires k <= n <= |s|
    requires forall i :: k <= i < n ==> IsToken(s[i])
    requires n < |s| ==> !IsToken(s[n])
    ensures TokenEnd(s, k) == n
    decreases n - k
  {
    if k < n {
      TokenEndIs(s, k + 1, n);
    }
  }

  lemma SpacesSkipped(spaces: string, rest: string)
    requires IsSpaces(spaces) && (rest != "" ==> !IsSpace(rest[0]))
    ensures AfterSpace(spaces + rest) == rest
  {
    SpaceEndIs(spaces + rest, 0, |spaces|);
  }

  lemma TokenRead(token: string, rest: string)
    requires IsTokenText(token) && (rest != "" ==> !IsToken(rest[0]))
    ensures Token(token + rest) == (token, rest)
  {
    TokenEndIs(token + rest, 0, |token|);
  }

  /** The scanner reads a quoted-string to its closing quote and denotes what it should. */
  lemma {:induction false} QuotedRead(quoted: string, rest: string, read: string)
    requires Denoted(quoted).Some?
    ensures Unquoted(quoted + "\"" + rest, read, false) == (read + Denoted(quoted).value, rest)
    decreases |quoted|
  {
    var s := quoted + "\"" + rest;
    if quoted == "" {
      assert s[1..] == rest;
      assert read + "" == read;
    } else if quoted[0] == '\\' {
      assert s[1..][1..] == quoted[2..] + "\"" + rest;
      QuotedRead(quoted[2..], rest, read + [quoted[1]]);
      assert read + [quoted[1]] + Denoted(quoted[2..]).value == read + ([quoted[1]] + Denoted(quoted[2..]).value);
    } else {
      assert s[1..] == quoted[1..] + "\"" + rest;
      QuotedRead(quoted[1..], rest, read + [quoted[0]]);
      assert read + [quoted[0]] + Denoted(quoted[1..]).value == read + ([quoted[0]] + Denoted(quoted[1..]).value);
    }
  }

  lemma ValueRead(text: string, value: string, rest: string)
    requires Spells(text, value) && (rest != "" ==> !IsToken(rest[0]))
    ensures TokenOrQuoted(text + rest) == (value, rest)
  {
    if IsTokenText(text) && value == text {
      assert !IsToken('"');
      TokenRead(text, rest);
    } else {
      var quoted := text[1..|text| - 1];
      assert (text + rest)[0] == '"' && (text + rest)[1..] == quoted + "\"" + rest;
      QuotedRead(quoted, rest, "");
      assert "" + value == value;
    }
  }

  /** The parser reads one rendered parameter and continues behind it. */
  lemma ParamRead(p: Param, tail: string)
    requires Renderable(p) && (tail != "" ==> tail[0] == ',')
    ensures ReadParam("," + RenderParam(p) + tail) ==
            if p.value == "" then None else Some((ToLower(p.key), p.value, tail))
  {
    var s, afterValue := "," + RenderParam(p) + tail, p.after + tail;
    var afterKey := "=" + (p.text + afterValue);
    assert s[1..] == p.before + (p.key + afterKey) by {
      ParamShape(p, tail);
    }
    KeyRead(p, afterKey);
    AfterKeyRead(p, tail, afterValue, afterKey);
    ReadParamIs(s, p.key, afterKey, p.value, afterValue);
  }

  /** What is read of a parameter, from what is read of its parts. */
  lemma ReadParamIs(s: string, key: string, afterKey: string, value: string, afterValue: string)
    requires s != "" && s[0] == ',' && Token(AfterSpace(s[1..])) == (key, afterKey)
    requires key != "" && afterKey != "" && afterKey[0] == '=' && TokenOrQuoted(afterKey[1..]) == (value, afterValue)
    ensures ReadParam(s) == if value == "" then None else Some((ToLower(key), value, AfterSpace(afterValue)))
  {
  }

  lemma AfterKeyRead(p: Param, tail: string, afterValue: string, afterKey: string)
    requires Renderable(p) && (tail != "" ==> tail[0] == ',') && afterValue == p.after + tail
    requires afterKey == "=" + (p.text + afterValue)
    ensures TokenOrQuoted(afterKey[1..]) == (p.value, afterValue) && AfterSpace(afterValue) == tail
  {
    assert afterKey[1..] == p.text + afterValue;
    assert afterValue != "" ==> IsSpace(afterValue[0]) || afterValue[0] == ',';
    ValueRead(p.text, p.value, afterValue);
    SpacesSkipped(p.after, tail);
  }

  lemma ParamShape(p: Param, tail: string)
    ensures ("," + RenderParam(p) + tail)[1..] == p.before + (p.key + ("=" + (p.text + (p.after + tail))))
  {
  }

  lemma KeyRead(p: Param, afterKey: string)
    requires Renderable(p) && afterKey != "" && afterKey[0] == '='
    ensures Token(AfterSpace(p.before + (p.key + afterKey))) == (p.key, afterKey)
  {
    assert IsToken(p.key[0]) && !IsSpace(p.key[0]);
    SpacesSkipped(p.before, p.key + afterKey);
    TokenRead(p.key, afterKey);
  }

  lemma {:induction false} TailRead(params: seq<Param>, m: Params)
    requires forall i :: 0 <= i < |params| ==> Renderable(params[i])
    ensures ParseParams(RenderTail(params), m) == Collected(params, m)
  {
    if params != [] {
      ParamRead(params[0], RenderTail(params[1..]));
      if params[0].value != "" {
        TailRead(params[1..], m[ToLower(params[0].key) := params[0].value]);
      }
    }
  }

  lemma FirstParamRead(gap: string, params: seq<Param>)
    requires IsSpaces(gap) && params != [] && Renderable(params[0])
    ensures var p := params[0];
            ReadParam("," + AfterSpace(gap + RenderParams(params))) ==
            if p.value == "" then None else Some((ToLower(p.key), p.value, RenderTail(params[1..])))
  {
    var p, tail := params[0], RenderTail(params[1..]);
    LeadingSpace(gap, p, tail);
    ParamRead(p.(before := ""), tail);
  }

  lemma ParamsRead(gap: string, params: seq<Param>)
    requires IsSpaces(gap) && forall i :: 0 <= i < |params| ==> Renderable(params[i])
    ensures ParseParams("," + AfterSpace(gap + RenderParams(params)), map[]) == Collected(params, map[])
  {
    if params == [] {
      SpacesSkipped(gap, "");
      assert ReadParam("," + "") == None;
    } else {
      FirstParamRead(gap, params);
      if params[0].value != "" {
        TailRead(params[1..], map[][ToLower(params[0].key) := params[0].value]);
      }
    }
  }

  /** Whatever way a challenge is written, parsing gives back its scheme and its parameters. */
  lemma ParseRendered(scheme: string, gap: string, params: seq<Param>)
    requires IsTokenText(scheme) && IsSpaces(gap) && gap != ""
    requires forall i :: 0 <= i < |params| ==> Renderable(params[i])
    ensures Parse(Render(scheme, gap, params)) == (ToLower(scheme), Collected(params, map[]))
  {
    var rest := gap + RenderParams(params);
    assert rest[0] == gap[0] && IsSpace(gap[0]);
    TokenRead(scheme, rest);
    ParamsRead(gap, params);
  }

  /** White space before the first parameter is skipped together with the gap behind the scheme. */
  lemma LeadingSpace(gap: string, p: Param, tail: string)
    requires IsSpaces(gap) && Renderable(p)
    ensures "," + AfterSpace(gap + (RenderParam(p) + tail)) == "," + RenderParam(p.(before := "")) + tail
  {
    var bare := RenderParam(p.(before := "")) + tail;
    assert gap + (RenderParam(p) + tail) == (gap + p.before) + bare;
    assert bare[0] == p.key[0] && IsToken(p.key[0]) && !IsSpace(p.key[0]);
    SpacesSkipped(gap + p.before, bare);
  }

  // The printer that escapes quotes and backslashes, and nothing else.

  function Escape(value: string): string {
    if value == "" then ""
    else if value[0] == '"' || value[0] == '\\' then ['\\', value[0]] + Escape(value[1..])
    else [value[0]] + Escape(value[1..])
  }

  lemma {:induction false} EscapeDenotes(value: string)
    ensures Denoted(Escape(value)) == Some(value)
  {
    if value != "" {
      EscapeDenotes(value[1..]);
      var rest := Escape(value[1..]);
      assert (['\\', value[0]] + rest)[2..] == rest;
      assert ([value[0]] + rest)[1..] == rest;
      assert value == [value[0]] + value[1..];
    }
  }

  function Quote(value: string): string {
    "\"" + Escape(value) + "\""
  }

  lemma QuoteSpells(value: string)
    ensures Spells(Quote(value), value)
  {
    EscapeDenotes(value);
    var text := Quote(value);
    assert text[1..|text| - 1] == Escape(value);
  }

  predicate IsLower(s: string) {
    forall i :: 0 <= i < |s| ==> LowerChar(s[i]) == s[i]
  }

  /** The parameters of a map in a given order of its keys, each as a quoted-string. */
  function Printed(keys: seq<string>, m: Params): (params: seq<Param>)
    requires forall i :: 0 <= i < |keys| ==> keys[i] in m
    ensures |params| == |keys|
    ensures forall i :: 0 <= i < |keys| ==> params[i] == Param(keys[i], m[keys[i]], Quote(m[keys[i]]), "", "")
  {
    if keys == [] then [] else [Param(keys[0], m[keys[0]], Quote(m[keys[0]]), "", "")] + Printed(keys[1..], m)
  }

  /** `read` overridden by the entries of `m` at `keys`. */
  ghost predicate Overridden(r: Params, read: Params, keys: seq<string>, m: Params) {
    forall k ::
      && (k in r <==> k in read || (k in keys && k in m))
      && (k in r ==> r[k] == if k in keys && k in m then m[k] else if k in read then read[k] else "")
  }

  lemma {:induction false} CollectedIs(keys: seq<string>, m: Params, read: Params)
    requires forall i :: 0 <= i < |keys| ==> keys[i] in m && IsLower(keys[i]) && m[keys[i]] != ""
    ensures Overridden(Collected(Printed(keys, m), read), read, keys, m)
  {
    if keys != [] {
      var k := keys[0];
      assert ToLower(k) == k;
      CollectedIs(keys[1..], m, read[k := m[k]]);
      assert Printed(keys, m)[1..] == Printed(keys[1..], m);
      assert keys == [k] + keys[1..];
    }
  }

  /** No empty value is ever collected. */
  lemma {:induction false} CollectedNonEmpty(params: seq<Param>, m: Params)
    requires forall k :: k in m ==> m[k] != ""
    ensures forall k :: k in Collected(params, m) ==> Collected(params, m)[k] != ""
  {
    if params != [] && params[0].value != "" {
      CollectedNonEmpty(params[1..], m[ToLower(params[0].key) := params[0].value]);
    }
  }

  lemma CollectedPrinted(keys: seq<string>, m: Params)
    requires forall k :: k in keys <==> k in m
    requires forall k :: k in m ==> IsLower(k)
    ensures Collected(Printed(keys, m), map[]) == m <==> forall k :: k in m ==> m[k] != ""
  {
    CollectedNonEmpty(Printed(keys, m), map[]);
    if forall k :: k in m ==> m[k] != "" {
      CollectedIs(keys, m, map[]);
    }
  }

  /**
   Printing a challenge with lower-case scheme and keys and parsing it is the identity, exactly if no
   value is empty.
   */
  lemma PrintParse(scheme: string, keys: seq<string>, m: Params)
    requires IsTokenText(scheme) && IsLower(scheme)
    requires forall k :: k in keys <==> k in m
    requires forall k :: k in m ==> IsTokenText(k) && IsLower(k)
    ensures Parse(Render(scheme, " ", Printed(keys, m))) == (scheme, m) <==> forall k :: k in m ==> m[k] != ""
  {
    var params := Printed(keys, m);
    assert ToLower(scheme) == scheme;
    assert Parse(Render(scheme, " ", params)) == (scheme, Collected(params, map[])) by {
      PrintedRenderable(keys, m);
      ParseRendered(scheme, " ", params);
    }
    assert Collected(params, map[]) == m <==> forall k :: k in m ==> m[k] != "" by {
      CollectedPrinted(keys, m);
    }
  }

  lemma PrintedRenderable(keys: seq<string>, m: Params)
    requires forall i :: 0 <= i < |keys| ==> keys[i] in m && IsTokenText(keys[i])
    ensures forall i :: 0 <= i < |keys| ==> Renderable(Printed(keys, m)[i])
  {
    forall i | 0 <= i < |keys| ensures Renderable(Printed(keys, m)[i]) {
      QuoteSpells(m[keys[i]]);
    }
  }

  /** A parameter with an empty value is lost. */
  lemma EmptyValueIsLost()
    ensures Parse(Render("x", " ", Printed(["k"], map["k" := ""]))) != ("x", map["k" := ""])
  {
    PrintParse("x", ["k"], map["k" := ""]);
  }

  const TOKEN_SYMBOLS := "!#$%&'*+-.^_`|~"

  predicate IsSymbol(c: char) {
    || c == '!' || c == '#' || c == '$' || c == '%' || c == '&' || c == '\'' || c == '*' || c == '+' || c == '-'
    || c == '.' || c == '^' || c == '_' || c == '`' || c == '|' || c == '~'
  }

  lemma SymbolsAre(c: char)
    ensures c in TOKEN_SYMBOLS <==> IsSymbol(c)
  {
    assert TOKEN_SYMBOLS[0] == '!' && TOKEN_SYMBOLS[1] == '#' && TOKEN_SYMBOLS[2] == '$' && TOKEN_SYMBOLS[3] == '%';
    assert TOKEN_SYMBOLS[4] == '&' && TOKEN_SYMBOLS[5] == '\'' && TOKEN_SYMBOLS[6] == '*' && TOKEN_SYMBOLS[7] == '+';
    assert TOKEN_SYMBOLS[8] == '-' && TOKEN_SYMBOLS[9] == '.' && TOKEN_SYMBOLS[10] == '^' && TOKEN_SYMBOLS[11] == '_';
    assert TOKEN_SYMBOLS[12] == '`' && TOKEN_SYMBOLS[13] == '|' && TOKEN_SYMBOLS[14] == '~';
  }

  lemma SymbolIsToken(c: char)
    requires !('0' <= c <= '9') && !('A' <= c <= 'Z') && !('a' <= c <= 'z')
    ensures IsToken(c) <==> IsSymbol(c)
  {
    var n := c as int;
    assert IsToken(c) ==> 32 < n < 48 || 57 < n < 65 || 90 < n < 97 || 122 < n < 127;
  }

  /** The characters of tokens, as section 2.2 of RFC 2616 leaves them: letters, digits and these symbols. */
  lemma TokenCharacters(c: char)
    ensures IsToken(c) <==> '0' <= c <= '9' || 'A' <= c <= 'Z' || 'a' <= c <= 'z' || c in TOKEN_SYMBOLS
  {
    SymbolsAre(c);
    if !('0' <= c <= '9') && !('A' <= c <= 'Z') && !('a' <= c <= 'z') {
      SymbolIsToken(c);
    }
  }

  /** White space is a blank, a tab, a carriage return or a line feed. */
  lemma SpaceCharacters(c: char)
    ensures IsSpace(c) <==> c in " \t\r\n"
  {
    assert " \t\r\n"[0] == ' ' && " \t\r\n"[1] == '\t' && " \t\r\n"[2] == '\r' && " \t\r\n"[3] == '\n';
  }
}

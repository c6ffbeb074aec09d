module TemplateScripts {
  // Templates as they are written (template.cc): text and markers by turns, with comments,
  // pragmas and changes of the delimiters among them.  A text is a template without error exactly
  // when some script is written so, and the tree holds just the nodes that script means, whatever
  // the delimiters, nested sections included, in each strip mode.

  import opened Wrappers
  import opened TemplateTokens
  import opened TemplateTrees

  /**
   A marker.  glue is what stands between its end and the text after it and is not read: the
   backslash that protects a newline, or a newline that is stripped.
   */
  datatype Marker =
    | Var(name: string, modifiers: seq<Modifier>)
    | Inc(name: string, modifiers: seq<Modifier>, glue: string)
    | Sec(name: string, glue: string, parts: seq<Part>, tail: string, endGlue: string)
    | Note(text: string, glue: string)
    | Prag(text: string, glue: string)
    | Switch(to: Delimiters, glue: string)

  /** A marker and the text before it. */
  datatype Part = Part(text: string, marker: Marker)

  /** A template: dangling means that it ends right after one more start marker. */
  datatype Script = Script(parts: seq<Part>, tail: string, dangling: bool)

  // ----- what is meant -----

  function TextNodes(s: string): seq<Node> {
    if s == "" then [] else [TextNode(s)]
  }

  /** The nodes of parts and the text after them; first: nothing of the section comes before. */
  function Nodes(parts: seq<Part>, tail: string, first: bool): seq<Node> {
    if parts == [] then TextNodes(tail)
    else
      TextNodes(parts[0].text) + MarkerNodes(parts[0].marker, GetIndentation(parts[0].text, first))
      + Nodes(parts[1..], tail, false)
  }

  /** Comments and changes of delimiters add no node. */
  function MarkerNodes(m: Marker, indent: string): seq<Node> {
    match m
    case Var(name, ms) => [VariableNode(name, ms)]
    case Inc(name, ms, _) => [IncludeNode(name, ms, indent)]
    case Sec(name, _, parts, tail, _) => [SectionNode(name, Nodes(parts, tail, true))]
    case Note(_, _) => []
    case Prag(text, _) => [PragmaNode(text)]
    case Switch(_, _) => []
  }

  function Meaning(script: Script): seq<Node> {
    Nodes(script.parts, script.tail, true)
  }

  // ----- what is written -----

  /** The delimiters after parts, and after one marker. */
  function After(parts: seq<Part>, ds: Delimiters): Delimiters {
    if parts == [] then ds else After(parts[1..], AfterMarker(parts[0].marker, ds))
  }

  function AfterMarker(m: Marker, ds: Delimiters): Delimiters {
    match m
    case Sec(_, _, parts, _, _) => After(parts, ds)
    case Switch(to, _) => to
    case _ => ds
  }

  /** Parts, the text after them, and then rest. */
  function Written(parts: seq<Part>, tail: string, ds: Delimiters, rest: string): string {
    if parts == [] then tail + rest
    else
      var next := Written(parts[1..], tail, AfterMarker(parts[0].marker, ds), rest);
      parts[0].text + (ds.start + MarkerText(parts[0].marker, ds, next))
  }

  /** What follows the start of a marker, and then rest. */
  function MarkerText(m: Marker, ds: Delimiters, rest: string): string {
    match m
    case Var(name, ms) => name + PrintModifiers(ms) + (ds.end + rest)
    case Inc(name, ms, glue) => ">" + (name + PrintModifiers(ms) + (ds.end + (glue + rest)))
    case Sec(name, glue, parts, tail, endGlue) =>
      var end := SectionEndText(name, After(parts, ds), endGlue, rest);
      "#" + (name + (ds.end + (glue + Written(parts, tail, ds, end))))
    case Note(text, glue) => "!" + (text + (ds.end + (glue + rest)))
    case Prag(text, glue) => "%" + (text + (ds.end + (glue + rest)))
    case Switch(to, glue) => DirectiveText(to) + (ds.end + (glue + rest))
  }

  function DirectiveText(to: Delimiters): string {
    "=" + to.start + " " + to.end + "="
  }

  function SectionEndText(name: string, ds: Delimiters, glue: string, rest: string): string {
    ds.start + ("/" + (name + (ds.end + (glue + rest))))
  }

  /** The whole text, with the default delimiters at the start. */
  function Template(script: Script): string {
    Written(script.parts, script.tail, DEFAULT_DELIMITERS, EndText(script))
  }

  function EndText(script: Script): string {
    if script.dangling then After(script.parts, DEFAULT_DELIMITERS).start else ""
  }

  // ----- which scripts are read back -----

  predicate NoSeparators(ds: Delimiters) {
    ' ' !in ds.start && '=' !in ds.start && ' ' !in ds.end && '=' !in ds.end
  }

  /** A start marker begun in the text is overlapped by the one after the text. */
  predicate TextFits(s: string, start: string) {
    forall j :: 0 <= j < |s| && MatchAt(s + start, j, start) ==> MatchAt(s + start, j + 1, start)
  }

  predicate NoStart(s: string, start: string) {
    forall j :: 0 <= j <= |s| ==> !MatchAt(s, j, start)
  }

  /** Text begins at once after the start marker, or it and c hold another, overlapping one. */
  predicate Extends(start: string, c: char) {
    || start == ""
    || (start[|start| - 1] == c && forall k :: 0 <= k < |start| - 1 ==> start[k] == start[k + 1])
  }

  /** The first end marker after the text of a marker is its own. */
  predicate EndsAtEnd(text: string, end: string) {
    forall j :: 0 <= j < |text| ==> !MatchAt(text + end, j, end)
  }

  predicate BeginsWithNewline(s: string) {
    s != "" && s[0] == '\n'
  }

  /** A backslash is dropped before a newline, and a newline when white space is stripped. */
  predicate GlueFits(glue: string, rest: string, strip: Strip) {
    || (glue == "\\" && BeginsWithNewline(rest))
    || (glue == "\n" && strip == STRIP_WHITESPACE)
    || (glue == "" && !("\\\n" <= rest) && (strip == STRIP_WHITESPACE ==> !BeginsWithNewline(rest)))
  }

  predicate ModifierOk(m: Modifier, registry: Registry) {
    && ':' !in m.name && '=' !in m.name && ':' !in m.value
    && (m.value == "" || m.value[0] == '=')
    && registry.modifier(m.name, m.value) == Some(m.value != "")
  }

  predicate NameOk(name: string, ms: seq<Modifier>, end: string, registry: Registry) {
    && IsValidName(name)
    && (forall i :: 0 <= i < |ms| ==> ModifierOk(ms[i], registry))
    && EndsAtEnd(name + PrintModifiers(ms), end)
  }

  /** A marker before rest; top: no node of the template comes before. */
  predicate MarkerFits(m: Marker, ds: Delimiters, rest: string, top: bool, strip: Strip, registry: Registry)
    decreases m
  {
    match m
    case Var(name, ms) =>
      var t := MarkerText(m, ds, rest);
      NameOk(name, ms, ds.end, registry) && t != "" && !IsSigil(t[0]) && t[0] != '='
    case Inc(name, ms, glue) => NameOk(name, ms, ds.end, registry) && GlueFits(glue, rest, strip)
    case Sec(name, glue, parts, tail, endGlue) =>
      var ds1 := After(parts, ds);
      var end := SectionEndText(name, ds1, endGlue, rest);
      && IsValidName(name) && EndsAtEnd(name, ds.end) && GlueFits(glue, Written(parts, tail, ds, end), strip)
      && PartsFit(parts, tail, ds, end, false, false, strip, registry)
      && EndsAtEnd(name, ds1.end) && !Extends(ds1.start, '/') && GlueFits(endGlue, rest, strip)
    case Note(text, glue) => EndsAtEnd(text, ds.end) && GlueFits(glue, rest, strip)
    case Prag(text, glue) =>
      top && registry.pragma(text) && EndsAtEnd(text, ds.end) && GlueFits(glue, rest, strip)
    case Switch(to, glue) => NoSeparators(to) && GlueFits(glue, rest, strip)
  }

  /** Parts and the text after them before rest, which is an end marker but for the whole template. */
  predicate PartsFit(parts: seq<Part>, tail: string, ds: Delimiters, rest: string, main: bool, top: bool,
                     strip: Strip, registry: Registry)
    decreases parts
  {
    if parts == [] then
      (if main && rest == "" then NoStart(tail, ds.start) || ds.start == "" else TextFits(tail, ds.start))
    else
      var text, m := parts[0].text, parts[0].marker;
      var ds1 := AfterMarker(m, ds);
      var next := Written(parts[1..], tail, ds1, rest);
      var t := MarkerText(m, ds, next);
      && TextFits(text, ds.start) && t != "" && !Extends(ds.start, t[0])
      && MarkerFits(m, ds, next, top && text == "", strip, registry)
      && PartsFit(parts[1..], tail, ds1, rest, main, top && text == "" && MarkerNodes(m, "") == [], strip, registry)
  }

  predicate Fits(script: Script, strip: Strip, registry: Registry) {
    PartsFit(script.parts, script.tail, DEFAULT_DELIMITERS, EndText(script), true, true, strip, registry)
  }

  // ----- delimiters -----

  lemma {:induction false} IndexOfMeets(s: string, c: char)
    ensures forall j :: 0 <= j < IndexOf(s, c) ==> s[j] != c
    ensures c in s <==> IndexOf(s, c) < |s|
  {
    if s != "" && s[0] != c {
      IndexOfMeets(s[1..], c);
      assert s == [s[0]] + s[1..];
    }
  }

  /** The space is inside, and the delimiters are what it separates. */
  lemma ParsedAtSpace(text: string, ds: Delimiters)
    requires ParseDelimiters(text) == Some(ds)
    ensures var space := IndexOf(text, ' ');
      && 1 <= space <= |text| - 2 && text[0] == '=' && text[|text| - 1] == '=' && text[space] == ' '
      && ds == Delimiters(text[1..space], text[space + 1..|text| - 1])
      && '=' !in text[1..|text| - 1] && ' ' !in text[space + 1..]
  {
    hide IndexOf;
    var space := IndexOf(text, ' ');
    assert space != 0 && space != |text| - 1;
  }

  lemma Rejoined(text: string, space: nat)
    requires 1 <= space <= |text| - 2 && text[0] == '=' && text[|text| - 1] == '=' && text[space] == ' '
    ensures text == "=" + text[1..space] + " " + text[space + 1..|text| - 1] + "="
    ensures text[1..|text| - 1] == text[1..space] + [' '] + text[space + 1..|text| - 1]
  {
  }

  lemma ParsedIsWritten(text: string, ds: Delimiters)
    requires ParseDelimiters(text) == Some(ds)
    ensures text == DirectiveText(ds) && NoSeparators(ds)
  {
    ParsedAtSpace(text, ds);
    hide ParseDelimiters;
    var space := IndexOf(text, ' ');
    Rejoined(text, space);
    Separated(ds.start, ds.end, text[1..|text| - 1]);
    IndexOfMeets(text, ' ');
    hide IndexOf;
    assert forall j :: 0 <= j < |ds.start| ==> ds.start[j] == text[j + 1];
    assert forall j :: 0 <= j < |ds.end| ==> ds.end[j] == text[space + 1..][j];
  }

  lemma Separated(a: string, b: string, inner: string)
    requires inner == a + [' '] + b && '=' !in inner
    ensures '=' !in a && '=' !in b
  {
    assert forall j :: 0 <= j < |a| ==> a[j] == inner[j];
    assert forall j :: 0 <= j < |b| ==> b[j] == inner[|a| + 1 + j];
  }

  lemma WrittenIsParsed(ds: Delimiters)
    requires NoSeparators(ds)
    ensures ParseDelimiters(DirectiveText(ds)) == Some(ds)
  {
    var text, n := DirectiveText(ds), |ds.start| + 1;
    assert text[1..n] == ds.start && text[n] == ' ' && text[n + 1..|text| - 1] == ds.end;
    IndexOfIs(text, ' ', n);
    assert text[1..|text| - 1] == ds.start + [' '] + ds.end;
    assert text[n + 1..] == ds.end + ['='];
  }

  /** A directive names the delimiters written in it, and no others. */
  lemma ParseDelimitersIff(text: string, ds: Delimiters)
    ensures ParseDelimiters(text) == Some(ds) <==> text == DirectiveText(ds) && NoSeparators(ds)
  {
    hide ParseDelimiters, DirectiveText, NoSeparators;
    if ParseDelimiters(text) == Some(ds) {
      ParsedIsWritten(text, ds);
    }
    if NoSeparators(ds) {
      WrittenIsParsed(ds);
    }
  }

  // ----- tokens -----

  function St(rest: string, phase: Phase, ds: Delimiters): ParseState {
    ParseState(rest, phase, ds, false)
  }

  lemma {:induction false} FindMeets(h: string, n: string)
    ensures Find(h, n).Some? ==> forall j :: 0 <= j < Find(h, n).value ==> !MatchAt(h, j, n)
    ensures Find(h, n).None? ==> NoStart(h, n)
  {
    if h != "" && !MatchAt(h, 0, n) {
      FindMeets(h[1..], n);
      forall j | 1 <= j <= |h| ensures MatchAt(h, j, n) == MatchAt(h[1..], j - 1, n) {
        MatchAtTail(h, j, n);
      }
    }
  }

  lemma {:induction false} FindFirst(h: string, n: string, k: nat)
    requires MatchAt(h, k, n)
    ensures Find(h, n).Some? && Find(h, n).value <= k
  {
    if k > 0 && !MatchAt(h, 0, n) {
      MatchAtTail(h, k, n);
      FindFirst(h[1..], n, k - 1);
    }
  }

  lemma {:induction false} OverlapsTo(rest: string, start: string, i: nat, k: nat)
    requires i <= k && MatchAt(rest, i, start) && !MatchAt(rest, k + 1, start)
    requires forall j :: i <= j < k && MatchAt(rest, j, start) ==> MatchAt(rest, j + 1, start)
    ensures LastOverlap(rest, start, i) == k
    decreases k - i
  {
    if i < k {
      OverlapsTo(rest, start, i + 1, k);
    }
  }

  lemma OverlapExtends(s: string, start: string, t: string)
    requires t != "" && MatchAt(s + (start + t), |s| + 1, start)
    ensures Extends(start, t[0])
  {
    if start == "" {
      return;
    }
    var rest, n := s + (start + t), |s| + 1;
    var found := rest[n..n + |start|];
    assert found == start;
    assert forall k :: 0 <= k < |start| - 1 ==> found[k] == start[k + 1];
    assert found[|start| - 1] == t[0];
  }

  lemma SameMatch(s: string, start: string, t: string, j: nat)
    requires j <= |s|
    ensures MatchAt(s + (start + t), j, start) == MatchAt(s + start, j, start)
  {
    assert (s + (start + t))[j..j + |start|] == (s + start)[j..j + |start|];
  }

  lemma TextEnds(s: string, start: string, t: string)
    requires TextFits(s, start) && t != "" && !Extends(start, t[0])
    ensures var rest := s + (start + t);
      Find(rest, start).Some? && LastOverlap(rest, start, Find(rest, start).value) == |s|
  {
    var n := |s|;
    var rest := s + (start + t);
    forall j | 0 <= j <= n ensures MatchAt(rest, j, start) == MatchAt(s + start, j, start) {
      SameMatch(s, start, t, j);
    }
    assert MatchAt(s + start, n, start);
    if MatchAt(rest, n + 1, start) {
      OverlapExtends(s, start, t);
    }
    TextEndsAt(rest, n, start);
  }

  lemma TextStep(s: string, t: string, ds: Delimiters)
    requires TextFits(s, ds.start) && t != "" && !Extends(ds.start, t[0])
    ensures TextToken(St(s + (ds.start + t), GETTING_TEXT, ds)) == (Text(s), St(t, GETTING_NAME, ds))
  {
    TextEnds(s, ds.start, t);
    hide Find, LastOverlap, MatchAt, TextFits, Extends;
    var rest := s + (ds.start + t);
    assert rest[..|s|] == s && rest[|s| + |ds.start|..] == t;
  }

  lemma TextEndsAt(rest: string, n: nat, start: string)
    requires MatchAt(rest, n, start) && !MatchAt(rest, n + 1, start)
    requires forall j :: 0 <= j < n && MatchAt(rest, j, start) ==> MatchAt(rest, j + 1, start)
    ensures Find(rest, start).Some? && LastOverlap(rest, start, Find(rest, start).value) == n
  {
    hide MatchAt;
    FindFirst(rest, start, n);
    OverlapsTo(rest, start, Find(rest, start).value, n);
  }

  lemma FindEnd(text: string, end: string, rest: string)
    requires EndsAtEnd(text, end)
    ensures Find(text + (end + rest), end) == Some(|text|)
    ensures (text + (end + rest))[..|text|] == text && (text + (end + rest))[|text| + |end|..] == rest
  {
    var all := text + (end + rest);
    assert all[|text|..|text| + |end|] == end;
    forall j | 0 <= j < |text| ensures !MatchAt(all, j, end) {
      if j + |end| <= |all| {
        assert all[j..j + |end|] == (text + end)[j..j + |end|];
      }
      assert !MatchAt(text + end, j, end);
    }
    FindIs(all, end, |text|);
  }

  lemma GlueIsEaten(glue: string, rest: string, strip: Strip)
    requires GlueFits(glue, rest, strip)
    ensures MaybeEatNewline(glue + rest, strip) == rest
  {
    assert |rest| >= 2 && rest[0] == '\\' && rest[1] == '\n' ==> "\\\n" <= rest;
    assert "" + rest == rest;
  }

  lemma OneModifierParses(m: Modifier, more: string, registry: Registry)
    requires ModifierOk(m, registry) && (more != "" ==> more[0] == ':')
    ensures ParseModifiers(":" + (m.name + m.value) + more, registry) ==
      match ParseModifiers(more, registry) case None => None case Some(ms) => Some([m] + ms)
  {
    var own := m.name + m.value;
    var s := ":" + own + more;
    assert s[1..] == own + more;
    IndexOfIs(s[1..], ':', |own|);
    assert s[1..][..|own|] == own && s[1..][|own|..] == more;
    IndexOfIs(own, '=', |m.name|);
    assert own[..|m.name|] == m.name && own[|m.name|..] == m.value;
  }

  lemma {:induction false} PrintedModifiersParse(ms: seq<Modifier>, registry: Registry)
    requires forall i :: 0 <= i < |ms| ==> ModifierOk(ms[i], registry)
    ensures PrintModifiers(ms) != "" ==> PrintModifiers(ms)[0] == ':'
    ensures ParseModifiers(PrintModifiers(ms), registry) == Some(ms)
  {
    if ms != [] {
      PrintedModifiersParse(ms[1..], registry);
      OneModifierParses(ms[0], PrintModifiers(ms[1..]), registry);
      assert [ms[0]] + ms[1..] == ms;
    }
  }

  lemma NameAndModifiers(c: char, name: string, ms: seq<Modifier>, end: string, registry: Registry)
    requires NameOk(name, ms, end, registry) && c != '!' && c != '=' && c != '%'
    requires c == '#' || c == '/' ==> ms == []
    ensures MarkerToken(c, name + PrintModifiers(ms), registry) ==
      Some(if c == '>' then Include(name, ms)
           else if c == '#' then SectionStart(name)
           else if c == '/' then SectionEnd(name)
           else Variable(name, ms))
  {
    var text := name + PrintModifiers(ms);
    PrintedModifiersParse(ms, registry);
    IndexOfIs(text, ':', |name|);
    assert text[..|name|] == name && text[|name|..] == PrintModifiers(ms);
  }

  /** The marker whose text ends at n in body. */
  lemma MarkerTaken(ps: ParseState, body: string, n: nat, token: Token, strip: Strip, registry: Registry)
    requires ps.rest != "" && ps.rest[0] != '=' && body == (if IsSigil(ps.rest[0]) then ps.rest[1..] else ps.rest)
    requires Find(body, ps.delims.end) == Some(n) && n + |ps.delims.end| <= |body|
    requires MarkerToken(ps.rest[0], body[..n], registry) == Some(token)
    ensures var after := body[n + |ps.delims.end|..];
      NameToken(ps, strip, registry) ==
        (token, ps.(rest := if token.Variable? then after else MaybeEatNewline(after, strip), phase := GETTING_TEXT))
  {
    hide MarkerToken, Find, IsSigil, MaybeEatNewline;
  }

  lemma VariableTaken(own: string, token: Token, rest: string, ds: Delimiters, strip: Strip, registry: Registry)
    requires own + (ds.end + rest) != "" && EndsAtEnd(own, ds.end) && token.Variable?
    requires var c := (own + (ds.end + rest))[0];
      !IsSigil(c) && c != '=' && MarkerToken(c, own, registry) == Some(token)
    ensures NameToken(St(own + (ds.end + rest), GETTING_NAME, ds), strip, registry)
         == (token, St(rest, GETTING_TEXT, ds))
  {
    hide MarkerToken, Find, EndsAtEnd, IsSigil, NameToken, MatchAt, MaybeEatNewline;
    FindEnd(own, ds.end, rest);
    MarkerTaken(St(own + (ds.end + rest), GETTING_NAME, ds), own + (ds.end + rest), |own|, token, strip, registry);
  }

  lemma NameEnds(name: string, ms: seq<Modifier>, end: string, registry: Registry)
    requires NameOk(name, ms, end, registry)
    ensures EndsAtEnd(name + PrintModifiers(ms), end)
  {
  }

  lemma VariableStep(name: string, ms: seq<Modifier>, rest: string, ds: Delimiters, strip: Strip, registry: Registry)
    requires NameOk(name, ms, ds.end, registry)
    requires var t := name + PrintModifiers(ms) + (ds.end + rest); t != "" && !IsSigil(t[0]) && t[0] != '='
    ensures NameToken(St(name + PrintModifiers(ms) + (ds.end + rest), GETTING_NAME, ds), strip, registry)
         == (Variable(name, ms), St(rest, GETTING_TEXT, ds))
  {
    var own := name + PrintModifiers(ms);
    var c := (own + (ds.end + rest))[0];
    assert c != '!' && c != '%' && c != '#' && c != '/' && c != '>';
    hide NameOk, NameToken, MarkerToken, PrintModifiers, EndsAtEnd, St, IsSigil;
    NameEnds(name, ms, ds.end, registry);
    NameAndModifiers(c, name, ms, ds.end, registry);
    VariableTaken(own, Variable(name, ms), rest, ds, strip, registry);
  }

  lemma ConsIs(c: char, s: string)
    ensures ([c] + s)[0] == c && ([c] + s)[1..] == s
  {
  }

  lemma SigilTaken(c: char, body: string, n: nat, token: Token, ds: Delimiters, strip: Strip, registry: Registry)
    requires IsSigil(c) && Find(body, ds.end) == Some(n) && n + |ds.end| <= |body| && !token.Variable?
    requires MarkerToken(c, body[..n], registry) == Some(token)
    ensures NameToken(St([c] + body, GETTING_NAME, ds), strip, registry)
         == (token, St(MaybeEatNewline(body[n + |ds.end|..], strip), GETTING_TEXT, ds))
  {
    hide MarkerToken, Find, NameToken, MaybeEatNewline;
    ConsIs(c, body);
    MarkerTaken(St([c] + body, GETTING_NAME, ds), body, n, token, strip, registry);
  }

  /** A marker that begins with a sigil: its token, and the text after it. */
  lemma SigilStep(c: char, text: string, token: Token, glue: string, rest: string, ds: Delimiters, strip: Strip,
                  registry: Registry)
    requires IsSigil(c) && EndsAtEnd(text, ds.end) && GlueFits(glue, rest, strip)
    requires MarkerToken(c, text, registry) == Some(token) && !token.Variable?
    ensures NameToken(St([c] + (text + (ds.end + (glue + rest))), GETTING_NAME, ds), strip, registry)
         == (token, St(rest, GETTING_TEXT, ds))
  {
    hide MarkerToken, Find, EndsAtEnd, IsSigil, NameToken, MatchAt, MaybeEatNewline, GlueFits, St;
    GlueIsEaten(glue, rest, strip);
    FindEnd(text, ds.end, glue + rest);
    SigilTaken(c, text + (ds.end + (glue + rest)), |text|, token, ds, strip, registry);
  }

  lemma PlainName(c: char, name: string, end: string, registry: Registry)
    requires IsValidName(name) && EndsAtEnd(name, end) && (c == '#' || c == '/')
    ensures MarkerToken(c, name, registry) == Some(if c == '#' then SectionStart(name) else SectionEnd(name))
  {
    assert name + PrintModifiers([]) == name;
    NameAndModifiers(c, name, [], end, registry);
  }

  lemma DirectiveEnds(to: Delimiters, after: string, end: string)
    requires NoSeparators(to)
    ensures var text := DirectiveText(to);
      var t := text + (end + after);
      && t != "" && t[0] == '=' && SetDelimitersEnd(t, end) == Some(|text|)
      && t[..|text|] == text && t[|text| + |end|..] == after
  {
    var text := DirectiveText(to);
    var t, p := text + (end + after), |text| - 1;
    var inner := to.start + [' '] + to.end;
    assert text == ['='] + inner + ['='];
    assert t[1..] == inner + (['='] + (end + after));
    assert forall c :: c in inner ==> c != '=';
    IndexOfIs(t[1..], '=', |inner|);
    assert t[p + 1..p + 1 + |end|] == end;
  }

  lemma DirectiveStep(to: Delimiters, glue: string, rest: string, ds: Delimiters, strip: Strip, registry: Registry)
    requires NoSeparators(to) && GlueFits(glue, rest, strip)
    ensures var t := DirectiveText(to) + (ds.end + (glue + rest));
      && t[0] == '='
      && NameToken(St(t, GETTING_NAME, ds), strip, registry) ==
           (SetDelimiters(DirectiveText(to)), St(rest, GETTING_TEXT, ds))
  {
    hide DirectiveText, SetDelimitersEnd, GlueFits, MaybeEatNewline, NoSeparators, NameToken, St;
    DirectiveEnds(to, glue + rest, ds.end);
    GlueIsEaten(glue, rest, strip);
    DirectiveTaken(DirectiveText(to) + (ds.end + (glue + rest)), |DirectiveText(to)|, ds, strip, registry);
  }

  lemma DirectiveTaken(t: string, n: nat, ds: Delimiters, strip: Strip, registry: Registry)
    requires t != "" && t[0] == '=' && SetDelimitersEnd(t, ds.end) == Some(n) && n + |ds.end| <= |t|
    ensures NameToken(St(t, GETTING_NAME, ds), strip, registry)
         == (SetDelimiters(t[..n]), St(MaybeEatNewline(t[n + |ds.end|..], strip), GETTING_TEXT, ds))
  {
    hide SetDelimitersEnd, MaybeEatNewline;
  }

  // ----- what is written is read -----

  lemma FillText(ps: ParseState, s: string, ps1: ParseState, section: Section, acc: seq<Node>,
                 indent: string, first: bool, strip: Strip, registry: Registry)
    requires !ps.error && ps.rest != "" && ps.phase == GETTING_TEXT && TextToken(ps) == (Text(s), ps1)
    ensures Fill(ps, section, acc, indent, first, strip, registry)
         == Fill(ps1, section, acc + TextNodes(s), GetIndentation(s, first), false, strip, registry)
  {
    assert acc + [] == acc;
  }

  /** The next text replaces the indentation, so that what it was does not matter. */
  lemma IndentIsReplaced(ps: ParseState, section: Section, acc: seq<Node>, indent: string, first: bool, strip: Strip,
                         registry: Registry)
    requires ps.phase == GETTING_TEXT
    ensures Fill(ps, section, acc, indent, first, strip, registry) == Fill(ps, section, acc, "", first, strip, registry)
  {
    if !ps.error && ps.rest != "" {
      var (token, ps1) := TextToken(ps);
      FillText(ps, token.text, ps1, section, acc, indent, first, strip, registry);
      FillText(ps, token.text, ps1, section, acc, "", first, strip, registry);
    }
  }

  /** Text s (or none), then a marker: the state when its first character is read. */
  lemma FillToMarker(s: string, t: string, ds: Delimiters, section: Section, acc: seq<Node>, indent: string,
                     first: bool, strip: Strip, registry: Registry)
    requires TextFits(s, ds.start) && t != "" && !Extends(ds.start, t[0])
    ensures Fill(St(s + (ds.start + t), GETTING_TEXT, ds), section, acc, indent, first, strip, registry)
         == Fill(St(t, GETTING_NAME, ds), section, acc + TextNodes(s), GetIndentation(s, first), false, strip, registry)
  {
    hide TextToken, Fill, TextFits, Extends;
    TextStep(s, t, ds);
    FillText(St(s + (ds.start + t), GETTING_TEXT, ds), s, St(t, GETTING_NAME, ds), section, acc, indent, first, strip,
             registry);
  }

  lemma FillName(t: string, token: Token, rest: string, ds: Delimiters, section: Section, acc: seq<Node>,
                 indent: string, strip: Strip, registry: Registry)
    requires t != "" && NameToken(St(t, GETTING_NAME, ds), strip, registry) == (token, St(rest, GETTING_TEXT, ds))
    ensures Measure(St(rest, GETTING_TEXT, ds)) < Measure(St(t, GETTING_NAME, ds))
    ensures Fill(St(t, GETTING_NAME, ds), section, acc, indent, false, strip, registry)
         == AddToken(token, St(rest, GETTING_TEXT, ds), section, acc, indent, false, strip, registry)
  {
    TokenMakesProgress(St(t, GETTING_NAME, ds), strip, registry);
  }

  /** How the text of a section ends, when more follows it. */
  datatype Ending = TemplateEnds(dangling: bool) | EndMarker(glue: string)

  function Closing(ending: Ending, section: Section, ds: Delimiters, more: string): string {
    match ending
    case TemplateEnds(dangling) => if dangling then ds.start else ""
    case EndMarker(glue) => SectionEndText(section.name, ds, glue, more)
  }

  predicate ClosingFits(ending: Ending, section: Section, ds: Delimiters, more: string, strip: Strip) {
    if section.main then ending.TemplateEnds? && more == ""
    else
      && ending.EndMarker? && GlueFits(ending.glue, more, strip)
      && IsValidName(section.name) && EndsAtEnd(section.name, ds.end) && !Extends(ds.start, '/')
  }

  /** Filling has ended with these nodes and no error; after a section more is left. */
  predicate Filled(r: (seq<Node>, ParseState), nodes: seq<Node>, main: bool, more: string, ds: Delimiters) {
    r.0 == nodes && !r.1.error && (!main ==> r.1 == St(more, GETTING_TEXT, ds))
  }

  lemma ClosingFills(tail: string, ds: Delimiters, section: Section, ending: Ending, more: string, acc: seq<Node>,
                     indent: string, first: bool, top: bool, strip: Strip, registry: Registry)
    requires ClosingFits(ending, section, ds, more, strip)
    requires PartsFit([], tail, ds, Closing(ending, section, ds, more), section.main, top, strip, registry)
    ensures Filled(Fill(St(tail + Closing(ending, section, ds, more), GETTING_TEXT, ds), section, acc, indent, first,
                        strip, registry),
                   acc + TextNodes(tail), section.main, more, ds)
  {
    if section.main {
      EndFills(tail, ds, ending.dangling, section, acc, indent, first, strip, registry);
    } else {
      SectionEndFills(tail, ds, section, ending.glue, more, acc, indent, first, strip, registry);
    }
  }

  lemma SectionEndFills(tail: string, ds: Delimiters, section: Section, glue: string, more: string, acc: seq<Node>,
                        indent: string, first: bool, strip: Strip, registry: Registry)
    requires !section.main && ClosingFits(EndMarker(glue), section, ds, more, strip) && TextFits(tail, ds.start)
    ensures Fill(St(tail + SectionEndText(section.name, ds, glue, more), GETTING_TEXT, ds), section, acc, indent, first,
                 strip, registry)
         == (acc + TextNodes(tail), St(more, GETTING_TEXT, ds))
  {
    var t := "/" + (section.name + (ds.end + (glue + more)));
    PlainName('/', section.name, ds.end, registry);
    SigilStep('/', section.name, SectionEnd(section.name), glue, more, ds, strip, registry);
    hide NameToken, TextFits, Extends, MarkerToken, EndsAtEnd, TextNodes, GetIndentation;
    FillToMarker(tail, t, ds, section, acc, indent, first, strip, registry);
    FillName(t, SectionEnd(section.name), more, ds, section, acc + TextNodes(tail), GetIndentation(tail, first),
             strip, registry);
  }

  lemma EndFills(tail: string, ds: Delimiters, dangling: bool, section: Section, acc: seq<Node>, indent: string,
                 first: bool, strip: Strip, registry: Registry)
    requires section.main
    requires if dangling && ds.start != "" then TextFits(tail, ds.start) else NoStart(tail, ds.start) || ds.start == ""
    ensures var r := Fill(St(tail + (if dangling then ds.start else ""), GETTING_TEXT, ds), section, acc, indent, first,
                          strip, registry);
      r.0 == acc + TextNodes(tail) && !r.1.error
  {
    var all := tail + (if dangling then ds.start else "");
    if all == "" {
      assert acc + [] == acc;
    } else {
      var ps := St(all, GETTING_TEXT, ds);
      var (token, ps1) := TextToken(ps);
      EndStep(tail, ds, dangling);
      FillText(ps, tail, ps1, section, acc, indent, first, strip, registry);
    }
  }

  /** The text at the end of the template, before a start marker without more or before nothing. */
  lemma EndStep(tail: string, ds: Delimiters, dangling: bool)
    requires if dangling && ds.start != "" then TextFits(tail, ds.start) else NoStart(tail, ds.start) || ds.start == ""
    ensures var (token, ps1) := TextToken(St(tail + (if dangling then ds.start else ""), GETTING_TEXT, ds));
      token == Text(tail) && ps1.rest == "" && !ps1.error
  {
    hide TextToken;
    if ds.start == "" {
      EmptyMarkerTakes(tail, ds);
      assert tail + "" == tail;
    } else if dangling {
      DanglingStep(tail, ds);
    } else {
      LastTextStep(tail, ds);
      assert tail + "" == tail;
    }
  }

  lemma EmptyMarkerTakes(tail: string, ds: Delimiters)
    requires ds.start == ""
    ensures TextToken(St(tail, GETTING_TEXT, ds)) == (Text(tail), St("", GETTING_NAME, ds))
  {
    EmptyMarkerTakesAll(tail, 0);
    hide LastOverlap;
    assert tail[..|tail|] == tail;
  }

  lemma DanglingEnds(tail: string, start: string)
    requires start != "" && TextFits(tail, start)
    ensures var i := Find(tail + start, start);
      i.Some? && MatchAt(tail + start, i.value, start) && LastOverlap(tail + start, start, i.value) == |tail|
  {
    assert MatchAt(tail + start, |tail|, start);
    TextEndsAt(tail + start, |tail|, start);
  }

  lemma DanglingStep(tail: string, ds: Delimiters)
    requires ds.start != "" && TextFits(tail, ds.start)
    ensures TextToken(St(tail + ds.start, GETTING_TEXT, ds)) == (Text(tail), St("", GETTING_NAME, ds))
  {
    hide Find, LastOverlap, TextFits, MatchAt;
    var rest := tail + ds.start;
    DanglingEnds(tail, ds.start);
    assert rest[..|tail|] == tail && rest[|tail| + |ds.start|..] == "";
  }

  lemma LastTextStep(tail: string, ds: Delimiters)
    requires NoStart(tail, ds.start)
    ensures TextToken(St(tail, GETTING_TEXT, ds)) == (Text(tail), St("", GETTING_TEXT, ds))
  {
    FindIsNone(tail, ds.start);
  }

  /** What filling goes on with once a marker has been read. */
  ghost predicate Leads(m: Marker, ds: Delimiters, rest: string, section: Section, acc: seq<Node>, indent: string,
                        strip: Strip, registry: Registry) {
    && MarkerText(m, ds, rest) != ""
    && Fill(St(MarkerText(m, ds, rest), GETTING_NAME, ds), section, acc, indent, false, strip, registry)
       == Fill(St(rest, GETTING_TEXT, AfterMarker(m, ds)), section, acc + MarkerNodes(m, indent), "", false, strip,
               registry)
  }

  lemma VarLeads(m: Marker, ds: Delimiters, rest: string, section: Section, acc: seq<Node>, indent: string,
                 top: bool, strip: Strip, registry: Registry)
    requires m.Var? && MarkerFits(m, ds, rest, top, strip, registry)
    ensures Leads(m, ds, rest, section, acc, indent, strip, registry)
  {
    hide NameOk, Fill, IsSigil;
    VariableStep(m.name, m.modifiers, rest, ds, strip, registry);
    FillName(MarkerText(m, ds, rest), Variable(m.name, m.modifiers), rest, ds, section, acc, indent, strip, registry);
  }

  lemma IncLeads(m: Marker, ds: Delimiters, rest: string, section: Section, acc: seq<Node>, indent: string,
                 top: bool, strip: Strip, registry: Registry)
    requires m.Inc? && MarkerFits(m, ds, rest, top, strip, registry)
    ensures Leads(m, ds, rest, section, acc, indent, strip, registry)
  {
    hide NameOk, Fill, NameToken;
    var token := Include(m.name, m.modifiers);
    NameEnds(m.name, m.modifiers, ds.end, registry);
    NameAndModifiers('>', m.name, m.modifiers, ds.end, registry);
    SigilStep('>', m.name + PrintModifiers(m.modifiers), token, m.glue, rest, ds, strip, registry);
    FillName(MarkerText(m, ds, rest), token, rest, ds, section, acc, indent, strip, registry);
  }

  lemma NoteLeads(m: Marker, ds: Delimiters, rest: string, section: Section, acc: seq<Node>, indent: string,
                  top: bool, strip: Strip, registry: Registry)
    requires m.Note? && MarkerFits(m, ds, rest, top, strip, registry)
    ensures Leads(m, ds, rest, section, acc, indent, strip, registry)
  {
    hide Fill, NameToken;
    SigilStep('!', m.text, Comment, m.glue, rest, ds, strip, registry);
    FillName(MarkerText(m, ds, rest), Comment, rest, ds, section, acc, indent, strip, registry);
    IndentIsReplaced(St(rest, GETTING_TEXT, ds), section, acc, indent, false, strip, registry);
    assert acc + [] == acc;
  }

  lemma PragLeads(m: Marker, ds: Delimiters, rest: string, section: Section, acc: seq<Node>, indent: string,
                  top: bool, strip: Strip, registry: Registry)
    requires m.Prag? && MarkerFits(m, ds, rest, top, strip, registry)
    requires top ==> section.main && acc == []
    ensures Leads(m, ds, rest, section, acc, indent, strip, registry)
  {
    hide Fill, NameToken;
    SigilStep('%', m.text, Pragma(m.text), m.glue, rest, ds, strip, registry);
    FillName(MarkerText(m, ds, rest), Pragma(m.text), rest, ds, section, acc, indent, strip, registry);
    IndentIsReplaced(St(rest, GETTING_TEXT, ds), section, acc + [PragmaNode(m.text)], indent, false, strip, registry);
  }

  lemma SwitchLeads(m: Marker, ds: Delimiters, rest: string, section: Section, acc: seq<Node>, indent: string,
                    top: bool, strip: Strip, registry: Registry)
    requires m.Switch? && MarkerFits(m, ds, rest, top, strip, registry)
    ensures Leads(m, ds, rest, section, acc, indent, strip, registry)
  {
    hide Fill, NameToken, ParseDelimiters;
    var text := DirectiveText(m.to);
    DirectiveStep(m.to, m.glue, rest, ds, strip, registry);
    ParseDelimitersIff(text, m.to);
    FillName(MarkerText(m, ds, rest), SetDelimiters(text), rest, ds, section, acc, indent, strip, registry);
    IndentIsReplaced(St(rest, GETTING_TEXT, m.to), section, acc, indent, false, strip, registry);
    assert acc + [] == acc;
  }

  /** A nested section is filled with its own parts before anything after it is read. */
  lemma {:induction false} SecLeads(m: Marker, ds: Delimiters, rest: string, section: Section, acc: seq<Node>,
                                    indent: string, top: bool, strip: Strip, registry: Registry)
    requires m.Sec? && MarkerFits(m, ds, rest, top, strip, registry)
    ensures Leads(m, ds, rest, section, acc, indent, strip, registry)
    decreases m, 0
  {
    hide Fill, NameToken, PartsFit, Written;
    var inner, ending, ds1 := Section(m.name, false), EndMarker(m.endGlue), After(m.parts, ds);
    var inside := Written(m.parts, m.tail, ds, Closing(ending, inner, ds1, rest));
    PlainName('#', m.name, ds.end, registry);
    SigilStep('#', m.name, SectionStart(m.name), m.glue, inside, ds, strip, registry);
    FillName(MarkerText(m, ds, rest), SectionStart(m.name), inside, ds, section, acc, indent, strip, registry);
    PartsFill(m.parts, m.tail, ds, inner, ending, rest, [], "", true, false, strip, registry);
    assert [] + Nodes(m.parts, m.tail, true) == Nodes(m.parts, m.tail, true);
  }

  lemma {:induction false} MarkerLeads(m: Marker, ds: Delimiters, rest: string, section: Section, acc: seq<Node>,
                                       indent: string, top: bool, strip: Strip, registry: Registry)
    requires MarkerFits(m, ds, rest, top, strip, registry) && (top ==> section.main && acc == [])
    ensures Leads(m, ds, rest, section, acc, indent, strip, registry)
    decreases m, 1
  {
    hide Leads, MarkerFits;
    match m
    case Var(_, _) => VarLeads(m, ds, rest, section, acc, indent, top, strip, registry);
    case Inc(_, _, _) => IncLeads(m, ds, rest, section, acc, indent, top, strip, registry);
    case Sec(_, _, _, _, _) => SecLeads(m, ds, rest, section, acc, indent, top, strip, registry);
    case Note(_, _) => NoteLeads(m, ds, rest, section, acc, indent, top, strip, registry);
    case Prag(_, _) => PragLeads(m, ds, rest, section, acc, indent, top, strip, registry);
    case Switch(_, _) => SwitchLeads(m, ds, rest, section, acc, indent, top, strip, registry);
  }

  /** A section is filled with exactly the nodes meant by the parts written in it. */
  lemma {:induction false} PartsFill(parts: seq<Part>, tail: string, ds: Delimiters, section: Section, ending: Ending,
                                     more: string, acc: seq<Node>, indent: string, first: bool, top: bool,
                                     strip: Strip, registry: Registry)
    requires ClosingFits(ending, section, After(parts, ds), more, strip) && (top ==> section.main && acc == [])
    requires PartsFit(parts, tail, ds, Closing(ending, section, After(parts, ds), more), section.main, top, strip,
                      registry)
    ensures var text := Written(parts, tail, ds, Closing(ending, section, After(parts, ds), more));
      Filled(Fill(St(text, GETTING_TEXT, ds), section, acc, indent, first, strip, registry),
             acc + Nodes(parts, tail, first), section.main, more, After(parts, ds))
    decreases parts, 2
  {
    hide Fill, MarkerFits, TextFits, ClosingFits, NoStart, MarkerText, MarkerNodes, Extends;
    if parts == [] {
      ClosingFills(tail, ds, section, ending, more, acc, indent, first, top, strip, registry);
    } else {
      var text, m := parts[0].text, parts[0].marker;
      var ds1 := AfterMarker(m, ds);
      var rest := Written(parts[1..], tail, ds1, Closing(ending, section, After(parts, ds), more));
      var acc1, ind := acc + TextNodes(text), GetIndentation(text, first);
      var now := top && text == "";
      MarkerLeads(m, ds, rest, section, acc1, ind, now, strip, registry);
      FillToMarker(text, MarkerText(m, ds, rest), ds, section, acc, indent, first, strip, registry);
      NoNodeEitherWay(m, ind);
      PartsFill(parts[1..], tail, ds1, section, ending, more, acc1 + MarkerNodes(m, ind), "", false,
                now && MarkerNodes(m, "") == [], strip, registry);
      Regroup(acc, TextNodes(text), MarkerNodes(m, ind), Nodes(parts[1..], tail, false));
    }
  }

  lemma NoNodeEitherWay(m: Marker, indent: string)
    ensures MarkerNodes(m, indent) == [] <==> MarkerNodes(m, "") == []
  {
  }

  lemma Regroup(a: seq<Node>, b: seq<Node>, c: seq<Node>, d: seq<Node>)
    ensures a + b + c + d == a + (b + c + d)
  {
  }

  /** The tree built from a script as written holds the nodes it means. */
  lemma BuildReadsScript(script: Script, strip: Strip, registry: Registry)
    requires Fits(script, strip, registry)
    ensures BuildTree(Template(script), strip, registry) == Some(Meaning(script))
  {
    PartsFill(script.parts, script.tail, DEFAULT_DELIMITERS, MAIN, TemplateEnds(script.dangling), "", [], "", true,
              true, strip, registry);
    assert [] + Meaning(script) == Meaning(script);
  }
}

module TemplateReading {
  // What the parser accepts is written by a script (template.cc, GetNextToken and BuildTree), so
  // that a text is a template, with a certain tree, exactly when some script is written as it.

  import opened Wrappers
  import opened TemplateTokens
  import opened TemplateTrees
  import opened TemplateScripts

  // ----- text -----

  lemma {:induction false} LastOverlapIs(rest: string, start: string, i: nat)
    requires MatchAt(rest, i, start)
    ensures var k := LastOverlap(rest, start, i);
      i <= k && !MatchAt(rest, k + 1, start) && forall j :: i <= j <= k ==> MatchAt(rest, j, start)
    decreases |rest| - i
  {
    if MatchAt(rest, i + 1, start) {
      LastOverlapIs(rest, start, i + 1);
    }
  }

  lemma ExtendsOverlaps(s: string, start: string, t: string)
    requires start != "" && t != "" && Extends(start, t[0])
    ensures MatchAt(s + (start + t), |s| + 1, start)
  {
    var rest, n := s + (start + t), |s| + 1;
    var found := rest[n..n + |start|];
    forall k | 0 <= k < |start| ensures found[k] == start[k] {
      assert found[k] == (start + t)[k + 1];
    }
    assert found == start;
  }

  /** The text before a marker, and what follows the start of the marker. */
  lemma TextReads(rest: string, ds: Delimiters) returns (s: string, t: string)
    requires Find(rest, ds.start).Some?
    ensures rest == s + (ds.start + t) && TextFits(s, ds.start) && (t != "" ==> !Extends(ds.start, t[0]))
    ensures TextToken(St(rest, GETTING_TEXT, ds)) == (Text(s), St(t, GETTING_NAME, ds))
  {
    var k := LastOverlap(rest, ds.start, Find(rest, ds.start).value);
    s, t := OverlapReads(rest, ds.start, k);
    hide Find, LastOverlap, MatchAt, TextFits, Extends;
  }

  lemma OverlapReads(rest: string, start: string, k: nat) returns (s: string, t: string)
    requires Find(rest, start).Some? && k == LastOverlap(rest, start, Find(rest, start).value)
    ensures k + |start| <= |rest| && s == rest[..k] && t == rest[k + |start|..]
    ensures rest == s + (start + t) && TextFits(s, start) && (t != "" ==> !Extends(start, t[0]))
  {
    var i := Find(rest, start).value;
    FindMeets(rest, start);
    LastOverlapIs(rest, start, i);
    Sliced(rest, k, start);
    hide MatchAt, TextFits, Extends, Find, LastOverlap;
    s, t := rest[..k], rest[k + |start|..];
    TextFitsBefore(s, start, t, i);
    TextNotExtended(s, start, t);
  }

  lemma TextNotExtended(s: string, start: string, t: string)
    requires !MatchAt(s + (start + t), |s| + 1, start)
    ensures t != "" ==> !Extends(start, t[0])
  {
    if t != "" && start != "" && Extends(start, t[0]) {
      ExtendsOverlaps(s, start, t);
    }
  }

  lemma TextFitsBefore(s: string, start: string, t: string, i: nat)
    requires forall j :: 0 <= j < i ==> !MatchAt(s + (start + t), j, start)
    requires forall j :: i <= j <= |s| ==> MatchAt(s + (start + t), j, start)
    ensures TextFits(s, start)
  {
    forall j | 0 <= j <= |s| ensures MatchAt(s + (start + t), j, start) == MatchAt(s + start, j, start) {
      SameMatch(s, start, t, j);
    }
  }

  // ----- markers -----

  lemma EscapedIs(s: string)
    ensures "\\\n" <= s <==> |s| >= 2 && s[0] == '\\' && s[1] == '\n'
  {
    if |s| >= 2 && s[0] == '\\' && s[1] == '\n' {
      assert s[..2] == "\\\n";
    }
  }

  /** What an end marker eats stands between it and the text that is read. */
  lemma GlueReads(s: string, strip: Strip) returns (glue: string)
    ensures s == glue + MaybeEatNewline(s, strip) && GlueFits(glue, MaybeEatNewline(s, strip), strip)
  {
    if |s| >= 2 && s[0] == '\\' && s[1] == '\n' {
      glue := "\\";
      Parted(s);
    } else if |s| >= 1 && s[0] == '\n' && strip == STRIP_WHITESPACE {
      glue := "\n";
      Parted(s);
    } else {
      glue := "";
      NothingEaten(s, strip);
    }
  }

  lemma Parted(s: string)
    requires s != ""
    ensures s == [s[0]] + s[1..]
  {
  }

  lemma NothingEaten(s: string, strip: Strip)
    requires !(|s| >= 2 && s[0] == '\\' && s[1] == '\n') && (strip == STRIP_WHITESPACE ==> !BeginsWithNewline(s))
    ensures MaybeEatNewline(s, strip) == s == "" + s && GlueFits("", s, strip)
  {
    EscapedIs(s);
  }

  lemma {:induction false} ModifiersRead(s: string, ms: seq<Modifier>, registry: Registry)
    requires (s != "" ==> s[0] == ':') && ParseModifiers(s, registry) == Some(ms)
    ensures s == PrintModifiers(ms) && forall i :: 0 <= i < |ms| ==> ModifierOk(ms[i], registry)
    decreases |s|
  {
    hide ModifierOk;
    if s != "" {
      var left := ModifiersTaken(s, ms, registry);
      hide ParseModifiers;
      ModifiersRead(left, ms[1..], registry);
    }
  }

  lemma ModifiersTaken(s: string, ms: seq<Modifier>, registry: Registry) returns (left: string)
    requires s != "" && s[0] == ':' && ParseModifiers(s, registry) == Some(ms)
    ensures ms != [] && |left| < |s| && (left != "" ==> left[0] == ':')
    ensures ParseModifiers(left, registry) == Some(ms[1..]) && s == ":" + (ms[0].name + ms[0].value) + left
    ensures ModifierOk(ms[0], registry)
  {
    var end := IndexOf(s[1..], ':');
    var mod := s[1..][..end];
    left := s[1..][end..];
    var eq := IndexOf(mod, '=');
    PieceReads(s[1..], mod);
    hide IndexOf;
    var rest := ParseModifiers(left, registry).value;
    assert ms == [Modifier(mod[..eq], mod[eq..])] + rest;
    assert s == ":" + mod + left;
  }

  /** The text of a modifier, up to the next colon, is its name and its value. */
  lemma PieceReads(s: string, mod: string)
    requires mod == s[..IndexOf(s, ':')]
    ensures var eq := IndexOf(mod, '=');
      && mod == mod[..eq] + mod[eq..] && ':' !in mod[..eq] && '=' !in mod[..eq] && ':' !in mod[eq..]
      && (mod[eq..] == "" || mod[eq..][0] == '=')
  {
    var eq := IndexOf(mod, '=');
    IndexOfMeets(s, ':');
    IndexOfMeets(mod, '=');
    hide IndexOf;
    assert forall j :: 0 <= j < |mod| ==> mod[j] == s[j];
    assert forall j :: 0 <= j < eq ==> mod[..eq][j] == mod[j];
    assert forall j :: 0 <= j < |mod| - eq ==> mod[eq..][j] == mod[eq + j];
  }

  /** The modifiers a token carries. */
  function Carried(token: Token): seq<Modifier> {
    if token.Variable? || token.Include? then token.modifiers else []
  }

  predicate IsNamed(token: Token) {
    token.Variable? || token.Include? || token.SectionStart? || token.SectionEnd?
  }

  lemma NameReads(c: char, text: string, token: Token, registry: Registry)
    requires MarkerToken(c, text, registry) == Some(token) && c != '!' && c != '=' && c != '%'
    ensures IsNamed(token) && IsValidName(token.name) && text == token.name + PrintModifiers(Carried(token))
    ensures forall i :: 0 <= i < |Carried(token)| ==> ModifierOk(Carried(token)[i], registry)
  {
    var more := NameTaken(c, text, token, registry);
    hide MarkerToken, IsValidName, ParseModifiers, PrintModifiers;
    ModifiersRead(more, Carried(token), registry);
  }

  lemma NameTaken(c: char, text: string, token: Token, registry: Registry) returns (more: string)
    requires MarkerToken(c, text, registry) == Some(token) && c != '!' && c != '=' && c != '%'
    ensures IsNamed(token) && IsValidName(token.name) && text == token.name + more && (more != "" ==> more[0] == ':')
    ensures ParseModifiers(more, registry) == Some(Carried(token))
  {
    hide IndexOf, ParseModifiers, IsValidName;
    var colon := IndexOf(text, ':');
    more := text[colon..];
    assert text == text[..colon] + text[colon..];
  }

  lemma FoundEnds(body: string, end: string)
    requires Find(body, end).Some?
    ensures EndsAtEnd(body[..Find(body, end).value], end)
  {
    var n := Find(body, end).value;
    FindMeets(body, end);
    assert body == body[..n] + (end + body[n + |end|..]);
    forall j | 0 <= j < n ensures !MatchAt(body[..n] + end, j, end) {
      SameMatch(body[..n], end, body[n + |end|..], j);
    }
  }

  lemma Sliced(body: string, n: nat, end: string)
    requires MatchAt(body, n, end)
    ensures n + |end| <= |body| && body == body[..n] + (end + body[n + |end|..])
  {
  }

  /** The text of a marker that begins with something other than '=', and what follows it. */
  lemma TakenFrom(t: string, body: string, ds: Delimiters, token: Token, ps1: ParseState, strip: Strip,
                  registry: Registry) returns (text: string, after: string)
    requires t != "" && t[0] != '=' && body == if IsSigil(t[0]) then t[1..] else t
    requires NameToken(St(t, GETTING_NAME, ds), strip, registry) == (token, ps1) && !ps1.error
    ensures body == text + (ds.end + after) && EndsAtEnd(text, ds.end)
    ensures MarkerToken(t[0], text, registry) == Some(token)
    ensures ps1 == St(if token.Variable? then after else MaybeEatNewline(after, strip), GETTING_TEXT, ds)
  {
    hide MarkerToken, MaybeEatNewline, EndsAtEnd, IsSigil, MatchAt, NameToken;
    var n := FoundIn(t, body, ds, token, ps1, strip, registry);
    text, after := body[..n], body[n + |ds.end|..];
    FoundEnds(body, ds.end);
    Sliced(body, n, ds.end);
  }

  lemma FoundIn(t: string, body: string, ds: Delimiters, token: Token, ps1: ParseState, strip: Strip,
                registry: Registry) returns (n: nat)
    requires t != "" && t[0] != '=' && body == if IsSigil(t[0]) then t[1..] else t
    requires NameToken(St(t, GETTING_NAME, ds), strip, registry) == (token, ps1) && !ps1.error
    ensures Find(body, ds.end) == Some(n) && n + |ds.end| <= |body|
    ensures MarkerToken(t[0], body[..n], registry) == Some(token)
    ensures var after := body[n + |ds.end|..];
      ps1 == St(if token.Variable? then after else MaybeEatNewline(after, strip), GETTING_TEXT, ds)
  {
    hide MarkerToken, MaybeEatNewline, IsSigil;
    n := Find(body, ds.end).value;
  }

  /** A marker that begins with a sigil. */
  lemma SigilReads(t: string, ds: Delimiters, token: Token, ps1: ParseState, strip: Strip, registry: Registry)
    returns (text: string, glue: string)
    requires t != "" && IsSigil(t[0])
    requires NameToken(St(t, GETTING_NAME, ds), strip, registry) == (token, ps1) && !ps1.error
    ensures ps1 == St(ps1.rest, GETTING_TEXT, ds)
    ensures t == [t[0]] + (text + (ds.end + (glue + ps1.rest)))
    ensures EndsAtEnd(text, ds.end) && GlueFits(glue, ps1.rest, strip)
    ensures MarkerToken(t[0], text, registry) == Some(token)
  {
    SigilIsNoVariable(t[0], registry);
    hide MarkerToken, MaybeEatNewline, NameToken, EndsAtEnd, GlueFits;
    var after;
    text, after := TakenFrom(t, t[1..], ds, token, ps1, strip, registry);
    glue := GlueReads(after, strip);
    Parted(t);
  }

  lemma SigilIsNoVariable(c: char, registry: Registry)
    requires IsSigil(c)
    ensures c != '=' && forall text :: MarkerToken(c, text, registry).Some? ==>
      !MarkerToken(c, text, registry).value.Variable?
  {
  }

  /** A marker that begins with neither a sigil nor '='. */
  lemma VariableReads(t: string, ds: Delimiters, token: Token, ps1: ParseState, strip: Strip, registry: Registry)
    requires t != "" && !IsSigil(t[0]) && t[0] != '='
    requires NameToken(St(t, GETTING_NAME, ds), strip, registry) == (token, ps1) && !ps1.error
    ensures ps1 == St(ps1.rest, GETTING_TEXT, ds) && token.Variable?
    ensures t == token.name + PrintModifiers(token.modifiers) + (ds.end + ps1.rest)
    ensures NameOk(token.name, token.modifiers, ds.end, registry)
  {
    var text, after := TakenFrom(t, t, ds, token, ps1, strip, registry);
    NotSigilIsVariable(t[0], text, registry);
    hide MarkerToken, NameToken, EndsAtEnd, PrintModifiers;
    NameReads(t[0], text, token, registry);
  }

  lemma NotSigilIsVariable(c: char, text: string, registry: Registry)
    requires !IsSigil(c) && c != '='
    ensures c != '!' && c != '%'
    ensures MarkerToken(c, text, registry).Some? ==> MarkerToken(c, text, registry).value.Variable?
  {
  }

  /** A change of delimiters: the text is the token's, whichever way its end was found. */
  lemma DirectiveReads(t: string, ds: Delimiters, token: Token, ps1: ParseState, strip: Strip, registry: Registry)
    returns (glue: string)
    requires t != "" && t[0] == '='
    requires NameToken(St(t, GETTING_NAME, ds), strip, registry) == (token, ps1) && !ps1.error
    ensures ps1 == St(ps1.rest, GETTING_TEXT, ds) && token.SetDelimiters?
    ensures t == token.text + (ds.end + (glue + ps1.rest)) && GlueFits(glue, ps1.rest, strip)
  {
    var after := DirectiveTakenFrom(t, ds, token, ps1, strip, registry);
    hide NameToken, MaybeEatNewline, GlueFits;
    glue := GlueReads(after, strip);
  }

  lemma DirectiveTakenFrom(t: string, ds: Delimiters, token: Token, ps1: ParseState, strip: Strip, registry: Registry)
    returns (after: string)
    requires t != "" && t[0] == '='
    requires NameToken(St(t, GETTING_NAME, ds), strip, registry) == (token, ps1) && !ps1.error
    ensures token.SetDelimiters? && t == token.text + (ds.end + after)
    ensures ps1 == St(MaybeEatNewline(after, strip), GETTING_TEXT, ds)
  {
    hide SetDelimitersEnd, MaybeEatNewline;
    var n := SetDelimitersEnd(t, ds.end).value;
    Sliced(t, n, ds.end);
    after := t[n + |ds.end|..];
  }

  // ----- trees -----

  /** The token of the marker that t begins with. */
  function TokenOf(t: string, ds: Delimiters, strip: Strip, registry: Registry): Token
    requires t != ""
  {
    NameToken(St(t, GETTING_NAME, ds), strip, registry).0
  }

  function LeftOf(t: string, ds: Delimiters, strip: Strip, registry: Registry): ParseState
    requires t != ""
  {
    NameToken(St(t, GETTING_NAME, ds), strip, registry).1
  }

  /** What has to hold of a token for filling to go on without error. */
  predicate Accepted(token: Token, ps1: ParseState, section: Section, acc: seq<Node>, strip: Strip,
                     registry: Registry)
  {
    && !ps1.error
    && match token
       case Pragma(_) => section.main && acc == []
       case SetDelimiters(text) => ParseDelimiters(text).Some?
       case SectionEnd(name) => name == section.name
       case SectionStart(name) => !Fill(ps1, Section(name, false), [], "", true, strip, registry).1.error
       case Text(_) => false
       case Null => false
       case _ => true
  }

  lemma NoErrorIsAccepted(t: string, ds: Delimiters, section: Section, acc: seq<Node>, indent: string, strip: Strip,
                          registry: Registry)
    requires t != "" && !Fill(St(t, GETTING_NAME, ds), section, acc, indent, false, strip, registry).1.error
    ensures Accepted(TokenOf(t, ds, strip, registry), LeftOf(t, ds, strip, registry), section, acc, strip, registry)
  {
    var ps := St(t, GETTING_NAME, ds);
    TokenMakesProgress(ps, strip, registry);
    var (token, ps1) := NameToken(ps, strip, registry);
    assert Fill(ps, section, acc, indent, false, strip, registry)
        == AddToken(token, ps1, section, acc, indent, false, strip, registry);
    NullIsError(t, ds, strip, registry);
    hide NameToken;
    ErrorStays(ps1, section, acc, indent, strip, registry, token);
  }

  lemma NullIsError(t: string, ds: Delimiters, strip: Strip, registry: Registry)
    requires t != ""
    ensures var (token, ps1) := NameToken(St(t, GETTING_NAME, ds), strip, registry);
      !token.Text? && (token.Null? <==> ps1.error)
  {
    var body := if IsSigil(t[0]) then t[1..] else t;
    var found := if t[0] == '=' then SetDelimitersEnd(t, ds.end) else Find(body, ds.end);
    if found.Some? {
      MarkerTokensOnly(t[0], body[..found.value], registry);
    }
    hide Find, SetDelimitersEnd, MarkerToken, IsSigil, MaybeEatNewline;
  }

  lemma MarkerTokensOnly(c: char, text: string, registry: Registry)
    ensures var token := MarkerToken(c, text, registry); token.Some? ==> !token.value.Text? && !token.value.Null?
  {
    hide IndexOf, IsValidName, ParseModifiers;
  }

  lemma ErrorStays(ps1: ParseState, section: Section, acc: seq<Node>, indent: string, strip: Strip, registry: Registry,
                   token: Token)
    requires !token.Text? && (token.Null? <==> ps1.error)
    requires !AddToken(token, ps1, section, acc, indent, false, strip, registry).1.error
    ensures Accepted(token, ps1, section, acc, strip, registry)
  {
  }

  /** A marker other than those of sections. */
  lemma MarkerReads(t: string, ds: Delimiters, section: Section, acc: seq<Node>, strip: Strip, registry: Registry)
    returns (m: Marker, rest: string)
    requires t != ""
    requires Accepted(TokenOf(t, ds, strip, registry), LeftOf(t, ds, strip, registry), section, acc, strip, registry)
    requires !TokenOf(t, ds, strip, registry).SectionEnd? && !TokenOf(t, ds, strip, registry).SectionStart?
    ensures t == MarkerText(m, ds, rest)
    ensures MarkerFits(m, ds, rest, section.main && acc == [], strip, registry)
  {
    var token, ps1 := TokenOf(t, ds, strip, registry), LeftOf(t, ds, strip, registry);
    rest := ps1.rest;
    hide NameToken, MarkerFits, MarkerText;
    if t[0] == '=' {
      var glue := DirectiveReads(t, ds, token, ps1, strip, registry);
      m := DirectiveMarker(t, token, glue, ds, rest, section.main && acc == [], strip, registry);
    } else if IsSigil(t[0]) {
      var text, glue := SigilReads(t, ds, token, ps1, strip, registry);
      m := SigilMarker(t[0], text, glue, token, ds, rest, section.main && acc == [], strip, registry);
    } else {
      VariableReads(t, ds, token, ps1, strip, registry);
      m := VariableMarker(t, token, ds, rest, section.main && acc == [], strip, registry);
    }
  }

  lemma VariableMarker(t: string, token: Token, ds: Delimiters, rest: string, top: bool, strip: Strip,
                       registry: Registry) returns (m: Marker)
    requires t != "" && !IsSigil(t[0]) && t[0] != '=' && token.Variable?
    requires t == token.name + PrintModifiers(token.modifiers) + (ds.end + rest)
    requires NameOk(token.name, token.modifiers, ds.end, registry)
    ensures t == MarkerText(m, ds, rest) && MarkerFits(m, ds, rest, top, strip, registry)
  {
    m := Var(token.name, token.modifiers);
    hide NameOk, IsSigil;
  }

  lemma DirectiveMarker(t: string, token: Token, glue: string, ds: Delimiters, rest: string, top: bool, strip: Strip,
                        registry: Registry) returns (m: Marker)
    requires token.SetDelimiters? && ParseDelimiters(token.text).Some? && GlueFits(glue, rest, strip)
    requires t == token.text + (ds.end + (glue + rest))
    ensures t == MarkerText(m, ds, rest) && MarkerFits(m, ds, rest, top, strip, registry)
  {
    var to := ParseDelimiters(token.text).value;
    ParseDelimitersIff(token.text, to);
    hide ParseDelimiters, GlueFits, NoSeparators, DirectiveText;
    m := Switch(to, glue);
  }

  lemma SigilMarker(c: char, text: string, glue: string, token: Token, ds: Delimiters, rest: string, top: bool,
                    strip: Strip, registry: Registry) returns (m: Marker)
    requires IsSigil(c) && EndsAtEnd(text, ds.end) && GlueFits(glue, rest, strip)
    requires MarkerToken(c, text, registry) == Some(token) && (token.Pragma? ==> top)
    requires !token.SectionEnd? && !token.SectionStart?
    ensures [c] + (text + (ds.end + (glue + rest))) == MarkerText(m, ds, rest)
    ensures MarkerFits(m, ds, rest, top, strip, registry)
  {
    if c == '!' {
      m := Note(text, glue);
    } else if c == '%' {
      m := Prag(text, glue);
    } else {
      NameReads(c, text, token, registry);
      SigilTokenIs(c, text, token, registry);
      m := Inc(token.name, token.modifiers, glue);
    }
  }

  lemma SigilTokenIs(c: char, text: string, token: Token, registry: Registry)
    requires MarkerToken(c, text, registry) == Some(token)
    ensures c == '>' ==> token.Include?
    ensures c == '#' ==> token.SectionStart?
    ensures c == '/' ==> token.SectionEnd?
    ensures c == '!' ==> token == Comment
    ensures c == '%' ==> token == Pragma(text) && registry.pragma(text)
    ensures token.SectionStart? ==> c == '#'
    ensures token.SectionEnd? ==> c == '/'
  {
  }

  lemma {:induction false} WrittenIsLonger(parts: seq<Part>, tail: string, ds: Delimiters, rest: string)
    ensures |Written(parts, tail, ds, rest)| >= |rest|
    decreases parts
  {
    if parts != [] {
      var m, ds1 := parts[0].marker, AfterMarker(parts[0].marker, ds);
      WrittenIsLonger(parts[1..], tail, ds1, rest);
      MarkerTextIsLonger(m, ds, Written(parts[1..], tail, ds1, rest));
    }
  }

  lemma {:induction false} MarkerTextIsLonger(m: Marker, ds: Delimiters, rest: string)
    ensures |MarkerText(m, ds, rest)| >= |rest|
    decreases m
  {
    if m.Sec? {
      WrittenIsLonger(m.parts, m.tail, ds, SectionEndText(m.name, After(m.parts, ds), m.endGlue, rest));
    }
  }

  /** What a section's start marker begins with: its name, and its text up to the end marker. */
  lemma SectionStartReads(t: string, ds: Delimiters, strip: Strip, registry: Registry)
    returns (glue: string)
    requires t != "" && !LeftOf(t, ds, strip, registry).error
    requires TokenOf(t, ds, strip, registry).SectionStart? || TokenOf(t, ds, strip, registry).SectionEnd?
    ensures var token, rest := TokenOf(t, ds, strip, registry), LeftOf(t, ds, strip, registry).rest;
      && LeftOf(t, ds, strip, registry) == St(rest, GETTING_TEXT, ds)
      && t == (if token.SectionStart? then "#" else "/") + (token.name + (ds.end + (glue + rest)))
      && IsValidName(token.name) && EndsAtEnd(token.name, ds.end) && GlueFits(glue, rest, strip)
  {
    var token, ps1 := TokenOf(t, ds, strip, registry), LeftOf(t, ds, strip, registry);
    SectionMarkerHasSigil(t, ds, strip, registry);
    hide NameToken;
    var text;
    text, glue := SigilReads(t, ds, token, ps1, strip, registry);
    SigilTokenIs(t[0], text, token, registry);
    NameReads(t[0], text, token, registry);
    assert text == token.name + "" == token.name;
  }

  lemma SectionMarkerHasSigil(t: string, ds: Delimiters, strip: Strip, registry: Registry)
    requires t != "" && !LeftOf(t, ds, strip, registry).error
    requires TokenOf(t, ds, strip, registry).SectionStart? || TokenOf(t, ds, strip, registry).SectionEnd?
    ensures IsSigil(t[0])
  {
    hide Find, SetDelimitersEnd, IsValidName, ParseModifiers;
  }

  /** The text up to the next marker: what comes of it is what comes after its start marker. */
  lemma TextLeads(rest: string, ds: Delimiters, section: Section, acc: seq<Node>, indent: string, first: bool,
                  strip: Strip, registry: Registry) returns (s: string, t: string)
    requires Find(rest, ds.start).Some? && rest != ""
    ensures rest == s + (ds.start + t) && TextFits(s, ds.start)
    ensures t != "" ==> !Extends(ds.start, t[0]) && |t| < |rest|
    ensures Fill(St(rest, GETTING_TEXT, ds), section, acc, indent, first, strip, registry)
         == Fill(St(t, GETTING_NAME, ds), section, acc + TextNodes(s), GetIndentation(s, first), false, strip, registry)
  {
    s, t := TextReads(rest, ds);
    hide Fill, TextToken, Find;
    FillText(St(rest, GETTING_TEXT, ds), s, St(t, GETTING_NAME, ds), section, acc, indent, first, strip, registry);
  }

  /** Nothing but text is left. */
  lemma LastTextReads(rest: string, ds: Delimiters, section: Section, acc: seq<Node>, indent: string, first: bool,
                      strip: Strip, registry: Registry)
    requires rest == "" || Find(rest, ds.start).None?
    requires !Fill(St(rest, GETTING_TEXT, ds), section, acc, indent, first, strip, registry).1.error
    ensures section.main && (NoStart(rest, ds.start) || ds.start == "")
  {
    FindMeets(rest, ds.start);
    if rest != "" {
      FillText(St(rest, GETTING_TEXT, ds), rest, St("", GETTING_TEXT, ds), section, acc, indent, first, strip,
               registry);
    }
  }

  /** A section that is filled without error has been written by parts and an ending. */
  lemma {:induction false} FillReads(rest: string, ds: Delimiters, section: Section, acc: seq<Node>, indent: string,
                                     first: bool, strip: Strip, registry: Registry)
    returns (parts: seq<Part>, tail: string, ending: Ending, more: string)
    requires section.main ==> !IsValidName(section.name)
    requires !Fill(St(rest, GETTING_TEXT, ds), section, acc, indent, first, strip, registry).1.error
    ensures ClosingFits(ending, section, After(parts, ds), more, strip)
    ensures rest == Written(parts, tail, ds, Closing(ending, section, After(parts, ds), more))
    ensures PartsFit(parts, tail, ds, Closing(ending, section, After(parts, ds), more), section.main,
                     section.main && acc == [], strip, registry)
    decreases |rest|, 1
  {
    hide Fill, TextFits, Extends, NoStart, TokenOf, LeftOf;
    if rest == "" || Find(rest, ds.start).None? {
      LastTextReads(rest, ds, section, acc, indent, first, strip, registry);
      parts, tail, ending, more := [], rest, TemplateEnds(false), "";
      assert rest + "" == rest;
    } else {
      var s, t := TextLeads(rest, ds, section, acc, indent, first, strip, registry);
      var acc1, ind := acc + TextNodes(s), GetIndentation(s, first);
      if t == "" {
        StartAtEnd(ds, section, acc1, ind, strip, registry);
        parts, tail, ending, more := [], s, TemplateEnds(true), "";
        assert ds.start + "" == ds.start;
      } else {
        NoErrorIsAccepted(t, ds, section, acc1, ind, strip, registry);
        if TokenOf(t, ds, strip, registry).SectionEnd? {
          var glue := SectionStartReads(t, ds, strip, registry);
          more := LeftOf(t, ds, strip, registry).rest;
          parts, tail, ending := [], s, EndMarker(glue);
        } else {
          var m, left := AnyMarkerReads(t, ds, section, acc1, strip, registry);
          parts, tail, ending, more := MarkerThenReads(s, t, m, left, ds, section, acc, ind, strip, registry);
        }
      }
    }
  }

  lemma StartAtEnd(ds: Delimiters, section: Section, acc: seq<Node>, indent: string, strip: Strip, registry: Registry)
    requires !Fill(St("", GETTING_NAME, ds), section, acc, indent, false, strip, registry).1.error
    ensures section.main
  {
  }

  /** A marker other than an end marker; the parts of a section are read with it. */
  lemma {:induction false} AnyMarkerReads(t: string, ds: Delimiters, section: Section, acc: seq<Node>, strip: Strip,
                                          registry: Registry) returns (m: Marker, rest: string)
    requires t != "" && !TokenOf(t, ds, strip, registry).SectionEnd?
    requires Accepted(TokenOf(t, ds, strip, registry), LeftOf(t, ds, strip, registry), section, acc, strip, registry)
    ensures t == MarkerText(m, ds, rest)
    ensures MarkerFits(m, ds, rest, section.main && acc == [], strip, registry)
    decreases |t|, 0
  {
    hide Fill, TokenOf, LeftOf, PartsFit, Written, GlueFits;
    if TokenOf(t, ds, strip, registry).SectionStart? {
      var glue := SectionStartReads(t, ds, strip, registry);
      var name, inside := TokenOf(t, ds, strip, registry).name, LeftOf(t, ds, strip, registry).rest;
      var parts, tail, ending, more := FillReads(inside, ds, Section(name, false), [], "", true, strip, registry);
      m, rest := Sec(name, glue, parts, tail, ending.glue), more;
    } else {
      m, rest := MarkerReads(t, ds, section, acc, strip, registry);
    }
  }

  /** Text, a marker, and what follows it. */
  lemma {:induction false} MarkerThenReads(s: string, t: string, m: Marker, left: string, ds: Delimiters,
                                           section: Section, acc: seq<Node>, indent: string, strip: Strip,
                                           registry: Registry)
    returns (parts: seq<Part>, tail: string, ending: Ending, more: string)
    requires section.main ==> !IsValidName(section.name)
    requires TextFits(s, ds.start) && t != "" && !Extends(ds.start, t[0]) && t == MarkerText(m, ds, left)
    requires MarkerFits(m, ds, left, section.main && acc + TextNodes(s) == [], strip, registry)
    requires !Fill(St(t, GETTING_NAME, ds), section, acc + TextNodes(s), indent, false, strip, registry).1.error
    ensures ClosingFits(ending, section, After(parts, ds), more, strip)
    ensures s + (ds.start + t) == Written(parts, tail, ds, Closing(ending, section, After(parts, ds), more))
    ensures PartsFit(parts, tail, ds, Closing(ending, section, After(parts, ds), more), section.main,
                     section.main && acc == [], strip, registry)
    decreases |t|, 2
  {
    hide Fill, MarkerFits, MarkerText, ClosingFits, Closing, TextFits, Extends;
    var acc1 := acc + TextNodes(s);
    MarkerLeads(m, ds, left, section, acc1, indent, section.main && acc1 == [], strip, registry);
    MarkerTextIsLonger(m, ds, left);
    NoNodeEitherWay(m, indent);
    parts, tail, ending, more :=
      FillReads(left, AfterMarker(m, ds), section, acc1 + MarkerNodes(m, indent), "", false, strip, registry);
    ghost var rest := parts;
    parts := [Part(s, m)] + rest;
    assert parts[1..] == rest;
  }

  /** A text is a template with a tree exactly when a script that means it is written so. */
  lemma BuildTreeIff(text: string, strip: Strip, registry: Registry, nodes: seq<Node>)
    ensures BuildTree(text, strip, registry) == Some(nodes) <==>
      exists script :: Fits(script, strip, registry) && Template(script) == text && Meaning(script) == nodes
  {
    hide BuildTree, Fits, Template, Meaning;
    if script :| Fits(script, strip, registry) && Template(script) == text && Meaning(script) == nodes {
      BuildReadsScript(script, strip, registry);
    }
    if BuildTree(text, strip, registry) == Some(nodes) {
      var script := ScriptReads(text, strip, registry);
      BuildReadsScript(script, strip, registry);
    }
  }

  lemma ScriptReads(text: string, strip: Strip, registry: Registry) returns (script: Script)
    requires BuildTree(text, strip, registry).Some?
    ensures Template(script) == text && Fits(script, strip, registry)
  {
    assert MAIN.name[2] == '{';
    hide Fill, Written, PartsFit;
    var parts, tail, ending, more := FillReads(text, DEFAULT_DELIMITERS, MAIN, [], "", true, strip, registry);
    script := Script(parts, tail, ending.dangling);
  }

  // ----- indentation -----

  lemma {:induction false} LastLineIs(before: string, line: string)
    requires '\n' !in line && (before != "" ==> before[|before| - 1] == '\n')
    ensures LastLine(before + line) == line
  {
    if line == "" {
      assert before + line == before;
    } else {
      var front, last := line[..|line| - 1], line[|line| - 1];
      LastLineIs(before, front);
      assert line == front + [last] && last in line;
      assert (before + line)[..|before + line| - 1] == before + front;
    }
  }

  /** An include is indented by the blanks between the start of its line and it, if nothing else is there. */
  lemma IndentationIs(before: string, line: string, first: bool)
    requires '\n' !in line && (before != "" ==> before[|before| - 1] == '\n')
    ensures GetIndentation(before + line, first) ==
      if (before != "" || first) && forall k :: 0 <= k < |line| ==> line[k] == ' ' || line[k] == '\t' then line
      else ""
  {
    LastLineIs(before, line);
    assert before != "" ==> (before + line)[|before| - 1] == '\n';
    assert before == "" ==> before + line == line;
  }
}

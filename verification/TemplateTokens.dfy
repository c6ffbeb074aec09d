/**
 The tokens of a template and how the parser cuts them (template.cc, GetNextToken).

 Everything works on the text not yet read, since the parser never looks back.
 */
module TemplateTokens {
  import opened Wrappers

  datatype Delimiters = Delimiters(start: string, end: string)

  const DEFAULT_DELIMITERS := Delimiters("{{", "}}")

  datatype Strip = DO_NOT_STRIP | STRIP_BLANK_LINES | STRIP_WHITESPACE

  datatype Phase = GETTING_TEXT | GETTING_NAME

  /** value starts with '=' when there is one. */
  datatype Modifier = Modifier(name: string, value: string)

  datatype Token =
    | Text(text: string)
    | Variable(name: string, modifiers: seq<Modifier>)
    | SectionStart(name: string)
    | SectionEnd(name: string)
    | Include(name: string, modifiers: seq<Modifier>)
    | Comment
    | SetDelimiters(text: string)
    | Pragma(text: string)
    | Null

  /**
   What the parser asks of other components: whether a modifier exists and needs a value
   (FindModifier), and whether the text of a pragma is legal.
   */
  datatype Registry = Registry(modifier: (string, string) -> Option<bool>, pragma: string -> bool)

  datatype ParseState = ParseState(rest: string, phase: Phase, delims: Delimiters, error: bool)

  // ----- searching -----

  predicate MatchAt(h: string, i: nat, n: string) {
    i + |n| <= |h| && h[i..i + |n|] == n
  }

  /** memmatch: the first place n occurs in h. */
  function Find(h: string, n: string): (r: Option<nat>)
    ensures r.Some? ==> MatchAt(h, r.value, n)
  {
    if MatchAt(h, 0, n) then Some(0)
    else if h == [] then None
    else
      match Find(h[1..], n)
      case None => None
      case Some(k) => MatchAtTail(h, k + 1, n); Some(k + 1)
  }

  lemma MatchAtTail(h: string, j: nat, n: string)
    requires 1 <= j <= |h|
    ensures MatchAt(h, j, n) == MatchAt(h[1..], j - 1, n)
  {
    if j + |n| <= |h| {
      assert h[1..][j - 1..j - 1 + |n|] == h[j..j + |n|];
    }
  }

  lemma {:induction false} FindIs(h: string, n: string, i: nat)
    requires MatchAt(h, i, n) && forall j :: 0 <= j < i ==> !MatchAt(h, j, n)
    ensures Find(h, n) == Some(i)
  {
    if i > 0 {
      MatchAtTail(h, i, n);
      forall j | 0 <= j < i - 1 ensures !MatchAt(h[1..], j, n) {
        MatchAtTail(h, j + 1, n);
      }
      FindIs(h[1..], n, i - 1);
    }
  }

  lemma {:induction false} FindIsNone(h: string, n: string)
    requires forall j :: 0 <= j <= |h| ==> !MatchAt(h, j, n)
    ensures Find(h, n) == None
  {
    if h != [] {
      forall j | 0 <= j <= |h| - 1 ensures !MatchAt(h[1..], j, n) {
        MatchAtTail(h, j + 1, n);
      }
      FindIsNone(h[1..], n);
    }
  }

  /** memchr, or the length when the character does not occur. */
  function IndexOf(s: string, c: char): (i: nat)
    ensures i <= |s| && (i < |s| ==> s[i] == c)
  {
    if s == "" then 0 else if s[0] == c then 0 else 1 + IndexOf(s[1..], c)
  }

  lemma {:induction false} IndexOfIs(s: string, c: char, i: nat)
    requires i <= |s| && (i < |s| ==> s[i] == c)
    requires forall j :: 0 <= j < i ==> s[j] != c
    ensures IndexOf(s, c) == i
  {
    if i > 0 {
      IndexOfIs(s[1..], c, i - 1);
    }
  }

  // ----- text -----

  /** "{{{VAR}}" holds two start markers; the second one counts. */
  function LastOverlap(rest: string, start: string, i: nat): (j: nat)
    requires MatchAt(rest, i, start)
    ensures MatchAt(rest, j, start)
    decreases |rest| - i
  {
    if MatchAt(rest, i + 1, start) then LastOverlap(rest, start, i + 1) else i
  }

  function TextToken(ps: ParseState): (Token, ParseState) {
    match Find(ps.rest, ps.delims.start)
    case None => (Text(ps.rest), ps.(rest := ""))
    case Some(i) =>
      var j := LastOverlap(ps.rest, ps.delims.start, i);
      (Text(ps.rest[..j]), ps.(rest := ps.rest[j + |ps.delims.start|..], phase := GETTING_NAME))
  }

  // ----- markers -----

  predicate IsNameChar(c: char) {
    'a' <= c <= 'z' || 'A' <= c <= 'Z' || '0' <= c <= '9' || c == '_'
  }

  predicate IsValidName(s: string) {
    forall i :: 0 <= i < |s| ==> IsNameChar(s[i])
  }

  /** Drops the newline after a marker when stripping, or the backslash that protects it. */
  function MaybeEatNewline(s: string, strip: Strip): (r: string)
    ensures |r| <= |s|
  {
    if |s| >= 2 && s[0] == '\\' && s[1] == '\n' then s[1..]
    else if |s| >= 1 && s[0] == '\n' && strip == STRIP_WHITESPACE then s[1..]
    else s
  }

  /** The modifiers in ":name=value:name...". */
  function ParseModifiers(s: string, registry: Registry): Option<seq<Modifier>>
    requires s != "" ==> s[0] == ':'
    decreases |s|
  {
    if s == "" then Some([])
    else
      var end := IndexOf(s[1..], ':');
      var mod := s[1..][..end];
      var eq := IndexOf(mod, '=');
      var m := Modifier(mod[..eq], mod[eq..]);
      match registry.modifier(m.name, m.value)
      case None => None
      case Some(needsValue) =>
        if needsValue == (m.value == "") then None
        else
          match ParseModifiers(s[1..][end..], registry)
          case None => None
          case Some(ms) => Some([m] + ms)
  }

  function Fail(ps: ParseState): (Token, ParseState) {
    (Null, ps.(rest := "", error := true))
  }

  /** Where a "{{=...=}}" marker ends: its second '=' if the end marker follows, as memchr finds it. */
  function SetDelimitersEnd(rest: string, end: string): (r: Option<nat>)
    requires rest != ""
    ensures r.Some? ==> MatchAt(rest, r.value, end)
  {
    var p := 1 + IndexOf(rest[1..], '=');
    if p < |rest| && MatchAt(rest, p + 1, end) then Some(p + 1) else Find(rest, end)
  }

  /** The token of a marker by its first character and the text up to the end marker. */
  function MarkerToken(c: char, text: string, registry: Registry): Option<Token> {
    if c == '!' then Some(Comment)
    else if c == '=' then Some(SetDelimiters(text))
    else if c == '%' then (if registry.pragma(text) then Some(Pragma(text)) else None)
    else
      var colon := IndexOf(text, ':');
      var name := text[..colon];
      if !IsValidName(name) then None
      else
        match ParseModifiers(text[colon..], registry)
        case None => None
        case Some(ms) =>
          if c == '>' then Some(Include(name, ms))
          else if c != '#' && c != '/' then Some(Variable(name, ms))
          else if ms != [] then None
          else if c == '#' then Some(SectionStart(name))
          else Some(SectionEnd(name))
  }

  /** The first characters that are not part of the text of a marker. */
  predicate IsSigil(c: char) {
    c == '#' || c == '/' || c == '!' || c == '>' || c == '%'
  }

  /** The token of the marker whose text ends at found in body, and the state after it. */
  function TakeMarker(ps: ParseState, body: string, found: Option<nat>, strip: Strip, registry: Registry)
    : (Token, ParseState)
    requires ps.rest != "" && (found.Some? ==> found.value + |ps.delims.end| <= |body|)
  {
    if found.None? then Fail(ps)
    else
      match MarkerToken(ps.rest[0], body[..found.value], registry)
      case None => Fail(ps)
      case Some(token) =>
        var after := body[found.value + |ps.delims.end|..];
        (token, ps.(rest := if token.Variable? then after else MaybeEatNewline(after, strip), phase := GETTING_TEXT))
  }

  function NameToken(ps: ParseState, strip: Strip, registry: Registry): (Token, ParseState)
    requires ps.rest != ""
  {
    var c := ps.rest[0];
    var body := if IsSigil(c) then ps.rest[1..] else ps.rest;
    var found := if c == '=' then SetDelimitersEnd(ps.rest, ps.delims.end) else Find(body, ps.delims.end);
    TakeMarker(ps, body, found, strip, registry)
  }

  function GetNextToken(ps: ParseState, strip: Strip, registry: Registry): (Token, ParseState) {
    if ps.rest == "" then (Null, ps)
    else if ps.phase == GETTING_TEXT then TextToken(ps)
    else NameToken(ps, strip, registry)
  }

  /** Twice the bytes left, plus one while a marker is being read. */
  function Measure(ps: ParseState): nat {
    2 * |ps.rest| + (if ps.phase == GETTING_NAME then 1 else 0)
  }

  /** Every token makes progress, whatever the markers, empty ones included. */
  lemma TokenMakesProgress(ps: ParseState, strip: Strip, registry: Registry)
    requires ps.rest != ""
    ensures Measure(GetNextToken(ps, strip, registry).1) < Measure(ps)
  {
    if ps.phase == GETTING_TEXT {
      TextMakesProgress(ps);
    }
  }

  lemma TextMakesProgress(ps: ParseState)
    requires ps.rest != "" && ps.phase == GETTING_TEXT
    ensures Measure(TextToken(ps).1) < Measure(ps)
  {
    var i := Find(ps.rest, ps.delims.start);
    if i.Some? && ps.delims.start == "" {
      EmptyMarkerTakesAll(ps.rest, i.value);
    }
  }

  lemma {:induction false} EmptyMarkerTakesAll(rest: string, i: nat)
    requires i <= |rest|
    ensures MatchAt(rest, i, "") && LastOverlap(rest, "", i) == |rest|
    decreases |rest| - i
  {
    if i < |rest| {
      EmptyMarkerTakesAll(rest, i + 1);
    }
  }

  /** "=XXX YYY=": one space, no '=' inside. */
  function ParseDelimiters(text: string): Option<Delimiters> {
    var space := IndexOf(text, ' ');
    if |text| < 3 || text[0] != '=' || text[|text| - 1] != '='
       || '=' in text[1..|text| - 1] || space == |text| || ' ' in text[space + 1..] then None
    else Some(Delimiters(text[1..space], text[space + 1..|text| - 1]))
  }
}

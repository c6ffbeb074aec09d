/**
 The parser as it runs (template.cc): pointers into the text advance, sections fill their
 lists of nodes, and the tokenizer and the tree builder call each other.  Each method is
 proved equal to the function it implements in TemplateTokens and TemplateTrees.
 */
module TemplateParser {
  import opened Wrappers
  import opened TemplateTokens
  import opened TemplateTrees

  method MemMatch(hay: string, needle: string) returns (r: Option<nat>)
    ensures r == Find(hay, needle)
  {
    if |needle| == 0 {
      FindIs(hay, needle, 0);
      return Some(0);
    } else if |needle| > |hay| {
      return None;
    }
    var from, end := 0, |hay| - |needle| + 1;
    while from < end
      invariant from <= end
      invariant forall j :: 0 <= j < from ==> !MatchAt(hay, j, needle)
    {
      if hay[from] == needle[0] && hay[from..from + |needle|] == needle {
        FindIs(hay, needle, from);
        return Some(from);
      }
      from := from + 1;
    }
    FindIsNone(hay, needle);
    return None;
  }

  method MemChr(s: string, c: char) returns (i: nat)
    ensures i == IndexOf(s, c)
  {
    i := 0;
    while i < |s| && s[i] != c
      invariant i <= |s|
      invariant forall j :: 0 <= j < i ==> s[j] != c
    {
      i := i + 1;
    }
    IndexOfIs(s, c, i);
  }

  lemma DropDrop(s: string, a: nat, b: nat)
    requires a + b <= |s|
    ensures s[a..][b..] == s[a + b..]
  {
  }

  method CheckName(name: string) returns (ok: bool)
    ensures ok == IsValidName(name)
  {
    for i := 0 to |name|
      invariant forall j :: 0 <= j < i ==> IsNameChar(name[j])
    {
      if !IsNameChar(name[i]) {
        return false;
      }
    }
    return true;
  }

  /** The first modifier of ":name=value:name...", and what is left after it. */
  method ReadModifier(s: string, registry: Registry) returns (m: Option<Modifier>, left: string)
    requires s != "" && s[0] == ':'
    ensures left != "" ==> left[0] == ':'
    ensures |left| < |s|
    ensures var ms := ParseModifiers(left, registry);
      ParseModifiers(s, registry) == if m.None? || ms.None? then None else Some([m.value] + ms.value)
  {
    var tail := s[1..];
    var modEnd := MemChr(tail, ':');
    var piece := tail[..modEnd];
    left := tail[modEnd..];
    var value := MemChr(piece, '=');
    var mod := Modifier(piece[..value], piece[value..]);
    var info := registry.modifier(mod.name, mod.value);
    if info.None? || (!info.value && mod.value != "") || (info.value && mod.value == "") {
      m := None;
    } else {
      m := Some(mod);
    }
  }

  /** The loop over the modifiers. */
  method ReadModifiers(s: string, registry: Registry) returns (r: Option<seq<Modifier>>)
    requires s != "" ==> s[0] == ':'
    ensures r == ParseModifiers(s, registry)
  {
    var modifiers: seq<Modifier>, left := [], s;
    ghost var all := ParseModifiers(s, registry);
    assert all.Some? ==> [] + all.value == all.value;
    while left != ""
      invariant left != "" ==> left[0] == ':'
      invariant all == match ParseModifiers(left, registry) case None => None case Some(ms) => Some(modifiers + ms)
      decreases |left|
    {
      var m, left1 := ReadModifier(left, registry);
      if m.None? {
        return None;
      }
      ghost var rest := ParseModifiers(left1, registry);
      assert rest.Some? ==> modifiers + ([m.value] + rest.value) == modifiers + [m.value] + rest.value;
      modifiers, left := modifiers + [m.value], left1;
    }
    assert modifiers + [] == modifiers;
    return Some(modifiers);
  }

  class Template {
    const text: string
    const strip: Strip
    const registry: Registry
    var bufstart: nat
    var phase: Phase
    var delims: Delimiters
    var error: bool

    constructor (text: string, strip: Strip, registry: Registry)
      ensures this.text == text && this.strip == strip && this.registry == registry
      ensures bufstart == 0 && State() == ParseState(text, GETTING_TEXT, DEFAULT_DELIMITERS, false)
    {
      this.text, this.strip, this.registry := text, strip, registry;
      bufstart, phase, delims, error := 0, GETTING_TEXT, DEFAULT_DELIMITERS, false;
    }

    ghost function State(): ParseState
      reads this
    {
      ParseState(if bufstart <= |text| then text[bufstart..] else "", phase, delims, error)
    }

    method Fail() returns (token: Token)
      requires bufstart <= |text|
      modifies this
      ensures bufstart <= |text| && (token, State()) == TemplateTokens.Fail(old(State()))
    {
      error := true;
      bufstart := |text|;
      assert text[|text|..] == "";
      token := Null;
    }

    /** In "{{{VAR}}" moves on to the second "{{". */
    static method SkipOverlaps(rest: string, start: string, from: nat) returns (end: nat)
      requires MatchAt(rest, from, start)
      ensures end == LastOverlap(rest, start, from)
    {
      end := from;
      while end + 1 + |start| <= |rest| && rest[end + 1..end + 1 + |start|] == start
        invariant MatchAt(rest, end, start) && LastOverlap(rest, start, end) == LastOverlap(rest, start, from)
        decreases |rest| - end
      {
        end := end + 1;
      }
    }

    method GetText() returns (token: Token)
      requires bufstart < |text| && phase == GETTING_TEXT
      modifies this
      ensures bufstart <= |text| && (token, State()) == TextToken(old(State()))
    {
      var rest := text[bufstart..];
      var tokenEnd := MemMatch(rest, delims.start);
      if tokenEnd.None? {
        bufstart := |text|;
        assert text[|text|..] == "";
        return Text(rest);
      }
      var end := SkipOverlaps(rest, delims.start, tokenEnd.value);
      phase := GETTING_NAME;
      DropDrop(text, bufstart, end + |delims.start|);
      bufstart := bufstart + end + |delims.start|;
      return Text(rest[..end]);
    }

    /** Where the text of the marker at bufstart ends, as an offset into body. */
    method FindMarkerEnd(rest: string, body: string) returns (end: Option<nat>)
      requires rest != "" && body == if IsSigil(rest[0]) then rest[1..] else rest
      ensures end == if rest[0] == '=' then SetDelimitersEnd(rest, delims.end) else Find(body, delims.end)
    {
      if rest[0] == '=' {
        var p := MemChr(rest[1..], '=');
        p := 1 + p;
        if p < |rest| && p + 1 + |delims.end| <= |rest| && rest[p + 1..p + 1 + |delims.end|] == delims.end {
          return Some(p + 1);
        }
      }
      end := MemMatch(body, delims.end);
    }

    /** The checks on a marker's text, which may refuse the template. */
    method ReadMarker(c: char, inside: string) returns (token: Option<Token>)
      ensures token == MarkerToken(c, inside, registry)
    {
      if c == '!' {
        return Some(Comment);
      } else if c == '=' {
        return Some(SetDelimiters(inside));
      } else if c == '%' {
        return if registry.pragma(inside) then Some(Pragma(inside)) else None;
      }
      var modStart := MemChr(inside, ':');
      var name := inside[..modStart];
      var ok := CheckName(name);
      if !ok {
        return None;
      }
      var modifiers := ReadModifiers(inside[modStart..], registry);
      if modifiers.None? {
        return None;
      }
      if modifiers.value != [] && (c == '#' || c == '/') {
        return None;
      }
      return Some(if c == '>' then Include(name, modifiers.value)
                  else if c == '#' then SectionStart(name)
                  else if c == '/' then SectionEnd(name)
                  else Variable(name, modifiers.value));
    }

    /** Passes the marker and, after any but a variable's, a newline or the backslash before one. */
    method PassMarker(length: nat, variable: bool, ghost after: string)
      requires bufstart + length <= |text| && after == text[bufstart + length..]
      modifies this
      ensures bufstart <= |text|
      ensures State() ==
        old(State()).(rest := if variable then after else MaybeEatNewline(after, strip), phase := GETTING_TEXT)
    {
      phase := GETTING_TEXT;
      bufstart := bufstart + length;
      if bufstart < |text| {
        DropDrop(text, bufstart, 1);
      }
      if !variable {
        if |text| - bufstart >= 2 && text[bufstart] == '\\' && text[bufstart + 1] == '\n' {
          bufstart := bufstart + 1;
        } else if |text| - bufstart >= 1 && text[bufstart] == '\n' && strip == STRIP_WHITESPACE {
          bufstart := bufstart + 1;
        }
      }
    }

    /** The marker at bufstart, its text starting skip characters on and ending at end. */
    method GetMarker(rest: string, skip: nat, end: Option<nat>) returns (token: Token)
      requires bufstart < |text| && rest == text[bufstart..] && skip <= |rest|
      requires end.Some? ==> end.value + |delims.end| <= |rest| - skip
      modifies this
      ensures bufstart <= |text|
      ensures (token, State()) == TakeMarker(old(State()), rest[skip..], end, strip, registry)
    {
      if end.None? {
        token := Fail();
        return;
      }
      var read := ReadMarker(rest[0], rest[skip..][..end.value]);
      if read.None? {
        token := Fail();
        return;
      }
      token := read.value;
      var length := skip + end.value + |delims.end|;
      DropDrop(rest, skip, end.value + |delims.end|);
      DropDrop(text, bufstart, length);
      PassMarker(length, token.Variable?, rest[skip..][end.value + |delims.end|..]);
    }

    method GetName() returns (token: Token)
      requires bufstart < |text| && phase == GETTING_NAME
      modifies this
      ensures bufstart <= |text| && (token, State()) == NameToken(old(State()), strip, registry)
    {
      var rest := text[bufstart..];
      var skip := if IsSigil(rest[0]) then 1 else 0;
      assert rest[0..] == rest;
      var end := FindMarkerEnd(rest, rest[skip..]);
      token := GetMarker(rest, skip, end);
    }

    method GetNextToken() returns (token: Token)
      requires bufstart < |text|
      modifies this
      ensures bufstart <= |text| && (token, State()) == TemplateTokens.GetNextToken(old(State()), strip, registry)
      ensures Measure(State()) < Measure(old(State()))
    {
      TokenMakesProgress(State(), strip, registry);
      if phase == GETTING_TEXT {
        token := GetText();
      } else {
        token := GetName();
      }
    }

    /** BuildTree: the parse tree, or None when the template is in error. */
    method BuildTree() returns (tree: Option<seq<Node>>)
      modifies this
      ensures tree == TemplateTrees.BuildTree(text, strip, registry)
    {
      bufstart, phase, delims, error := 0, GETTING_TEXT, DEFAULT_DELIMITERS, false;
      assert text[0..] == text;
      var top := new SectionTemplateNode(MAIN);
      top.FillAll(this);
      tree := if error then None else Some(top.nodes);
    }
  }

  class SectionTemplateNode {
    const section: Section
    var nodes: seq<Node>
    var indent: string
    /** indentation_ is still the "\n" it starts with. */
    var first: bool

    constructor (section: Section)
      ensures this.section == section && nodes == [] && indent == "" && first
    {
      this.section, nodes, indent, first := section, [], "", true;
    }

    ghost function Outcome(t: Template): (seq<Node>, ParseState)
      reads this, t
    {
      Fill(t.State(), section, nodes, indent, first, t.strip, t.registry)
    }

    method FillAll(t: Template)
      requires t.bufstart <= |t.text|
      modifies this, t
      ensures t.bufstart <= |t.text| && (nodes, t.State()) == old(Outcome(t))
      ensures Measure(t.State()) <= Measure(old(t.State()))
      decreases Measure(t.State()), 1
    {
      var more := true;
      while more
        invariant t.bufstart <= |t.text| && Measure(t.State()) <= Measure(old(t.State()))
        invariant more ==> Outcome(t) == old(Outcome(t))
        invariant !more ==> (nodes, t.State()) == old(Outcome(t))
        decreases more, Measure(t.State())
      {
        more := AddSubnode(t);
      }
    }

    /** Reads one token and adds its node; false when the section is over or broken. */
    method AddSubnode(t: Template) returns (more: bool)
      requires t.bufstart <= |t.text|
      modifies this, t
      ensures t.bufstart <= |t.text| && Measure(t.State()) <= Measure(old(t.State()))
      ensures more ==> Outcome(t) == old(Outcome(t)) && Measure(t.State()) < Measure(old(t.State()))
      ensures !more ==> (nodes, t.State()) == old(Outcome(t))
      decreases Measure(t.State()), 0
    {
      if t.error {
        return false;
      }
      if t.bufstart >= |t.text| {
        if !section.main {
          t.error := true;
        }
        return false;
      }
      var token := t.GetNextToken();
      assert old(Outcome(t)) == AddToken(token, t.State(), section, nodes, indent, first, t.strip, t.registry);
      more := Accept(token, t);
    }

    /** Adds the node of a token; false when the section is over or broken. */
    method Accept(token: Token, t: Template) returns (more: bool)
      requires t.bufstart <= |t.text|
      modifies this, t
      ensures t.bufstart <= |t.text| && Measure(t.State()) <= Measure(old(t.State()))
      ensures var all := AddToken(token, old(t.State()), section, old(nodes), old(indent), old(first), t.strip,
                                  t.registry);
        if more then Outcome(t) == all else (nodes, t.State()) == all
      decreases Measure(t.State()), 3
    {
      more := true;
      match token {
        case Text(s) =>
          if |s| > 0 {
            nodes := nodes + [TextNode(s)];
          }
          indent := GetIndentation(s, first);
          first := false;
        case Variable(name, ms) =>
          nodes := nodes + [VariableNode(name, ms)];
          indent, first := "", false;
        case SectionStart(name) =>
          AddSectionNode(name, t);
        case SectionEnd(name) =>
          if name != section.name {
            t.error := true;
          }
          more := false;
        case Include(name, ms) =>
          nodes := nodes + [IncludeNode(name, ms, indent)];
          indent, first := "", false;
        case Comment =>
        case SetDelimiters(text) =>
          var d := ParseDelimiters(text);
          if d.None? {
            t.error := true;
          } else {
            t.delims := d.value;
          }
        case Pragma(text) =>
          if !section.main || nodes != [] {
            t.error := true;
            more := false;
          } else {
            nodes := nodes + [PragmaNode(text)];
          }
        case Null =>
          more := false;
      }
    }

    /** A new section, filled with all its subnodes before it is added. */
    method AddSectionNode(name: string, t: Template)
      requires t.bufstart <= |t.text|
      modifies this, t
      ensures t.bufstart <= |t.text| && Measure(t.State()) <= Measure(old(t.State()))
      ensures Outcome(t) ==
        AddToken(SectionStart(name), old(t.State()), section, old(nodes), old(indent), old(first), t.strip, t.registry)
      decreases Measure(t.State()), 2
    {
      var child := new SectionTemplateNode(Section(name, false));
      child.FillAll(t);
      nodes := nodes + [SectionNode(name, child.nodes)];
      indent, first := "", false;
    }
  }
}

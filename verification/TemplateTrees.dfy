/** Building the parse tree of a template (template.cc, AddSubnode and BuildTree). */
module TemplateTrees {
  import opened Wrappers
  import opened TemplateTokens

  /** indent is the whitespace an included template's lines are prefixed with. */
  datatype Node =
    | TextNode(text: string)
    | VariableNode(name: string, modifiers: seq<Modifier>)
    | SectionNode(name: string, children: seq<Node>)
    | IncludeNode(name: string, modifiers: seq<Modifier>, indent: string)
    | PragmaNode(text: string)

  /** The section being filled: main is the whole template. */
  datatype Section = Section(name: string, main: bool)

  const MAIN := Section("__{{MAIN}}__", true)

  predicate IsBlank(s: string) {
    forall i :: 0 <= i < |s| ==> s[i] == ' ' || s[i] == '\t'
  }

  /** The text after the last newline. */
  function LastLine(s: string): string {
    if s == "" || s[|s| - 1] == '\n' then "" else LastLine(s[..|s| - 1]) + [s[|s| - 1]]
  }

  /** The whitespace a text leaves at the start of the line that is still open. */
  function GetIndentation(s: string, implicitNewline: bool): string {
    if '\n' !in s && !implicitNewline then ""
    else if IsBlank(LastLine(s)) then LastLine(s)
    else ""
  }

  /**
   Repeated AddSubnode: adds nodes to the section until it ends or an error shows.
   first holds until the first token has been read (indentation_ is still "\n").
   */
  function Fill(ps: ParseState, section: Section, nodes: seq<Node>, indent: string, first: bool,
                strip: Strip, registry: Registry): (r: (seq<Node>, ParseState))
    ensures Measure(r.1) <= Measure(ps)
    decreases Measure(ps), 0
  {
    if ps.error then (nodes, ps)
    else if ps.rest == "" then (nodes, if section.main then ps else ps.(error := true))
    else
      TokenMakesProgress(ps, strip, registry);
      var (token, ps1) := GetNextToken(ps, strip, registry);
      AddToken(token, ps1, section, nodes, indent, first, strip, registry)
  }

  /** What one token adds, and all that follows it. */
  function AddToken(token: Token, ps: ParseState, section: Section, nodes: seq<Node>, indent: string, first: bool,
                    strip: Strip, registry: Registry): (r: (seq<Node>, ParseState))
    ensures Measure(r.1) <= Measure(ps)
    decreases Measure(ps), 1
  {
    match token
    case Text(s) =>
      Fill(ps, section, if s == "" then nodes else nodes + [TextNode(s)], GetIndentation(s, first), false, strip,
           registry)
    case Variable(name, ms) =>
      Fill(ps, section, nodes + [VariableNode(name, ms)], "", false, strip, registry)
    case Include(name, ms) =>
      Fill(ps, section, nodes + [IncludeNode(name, ms, indent)], "", false, strip, registry)
    case SectionStart(name) =>
      var inside := Fill(ps, Section(name, false), [], "", true, strip, registry);
      Fill(inside.1, section, nodes + [SectionNode(name, inside.0)], "", false, strip, registry)
    case SectionEnd(name) =>
      (nodes, if name == section.name then ps else ps.(error := true))
    case Comment =>
      Fill(ps, section, nodes, indent, first, strip, registry)
    case SetDelimiters(text) =>
      var d := ParseDelimiters(text);
      Fill(if d.None? then ps.(error := true) else ps.(delims := d.value), section, nodes, indent, first, strip,
           registry)
    case Pragma(text) =>
      if section.main && nodes == [] then Fill(ps, section, nodes + [PragmaNode(text)], indent, first, strip, registry)
      else (nodes, ps.(error := true))
    case Null => (nodes, ps)
  }

  /** BuildTree: None stands for TS_ERROR. */
  function BuildTree(text: string, strip: Strip, registry: Registry): Option<seq<Node>> {
    var (nodes, ps) := Fill(ParseState(text, GETTING_TEXT, DEFAULT_DELIMITERS, false), MAIN, [], "", true, strip,
                            registry);
    if ps.error then None else Some(nodes)
  }

  // ----- printing -----

  function PrintModifiers(ms: seq<Modifier>): string {
    if ms == [] then "" else ":" + (ms[0].name + ms[0].value) + PrintModifiers(ms[1..])
  }
}

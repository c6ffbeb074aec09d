/**
 Expanding a parse tree with a dictionary (template.cc, Expand and ExpandOnce): what is
 written, and whether no included template was missing or in error.

 fuel bounds how deep templates may include one another: None means that a template was
 reached when it had run out.
 */
module Expansion {
  import opened Wrappers
  import opened TemplateTokens
  import opened TemplateTrees
  import opened Dictionaries
  import opened DictionaryLikeness

  /**
   What expansion takes from elsewhere: the templates that load without error, the modifiers,
   and the modifier that applies to the whole of each template, the identity when there is none.
   */
  datatype Env = Env(
    templates: map<string, seq<Node>>,
    globals: map<string, string>,
    mightModify: seq<Modifier> -> bool,
    applyModifiers: (seq<Modifier>, string) -> string,
    applyTemplateModifier: (string, string) -> string)

  datatype Output = Output(text: string, ok: bool)

  const NOTHING := Output("", true)

  function Then(a: Option<Output>, b: Option<Output>): Option<Output> {
    if a.None? || b.None? then None else Some(Output(a.value.text + b.value.text, a.value.ok && b.value.ok))
  }

  function Modified(env: Env, ms: seq<Modifier>, text: string): string {
    if env.mightModify(ms) then env.applyModifiers(ms, text) else text
  }

  /** PrefixLine: the prefix after every line end, which is LF, CR LF or CR. */
  function PrefixLines(text: string, prefix: string): string {
    if text == "" then ""
    else
      var ends := text[0] == '\n' || (text[0] == '\r' && !(|text| > 1 && text[1] == '\n'));
      [text[0]] + (if ends then prefix else "") + PrefixLines(text[1..], prefix)
  }

  /** An included template's text with its own modifiers, then with its lines indented. */
  function Included(env: Env, ms: seq<Modifier>, indent: string, text: string): string {
    var modified := if ms == [] then text else env.applyModifiers(ms, text);
    if indent == "" then modified else PrefixLines(modified, indent)
  }

  /** The last subsection named after its section with "_separator", or None. */
  function Separator(name: string, nodes: seq<Node>): (r: Option<nat>)
    ensures r.Some? ==> r.value < |nodes| && nodes[r.value].SectionNode?
  {
    if nodes == [] then None
    else
      var i := |nodes| - 1;
      if nodes[i].SectionNode? && nodes[i].name == name + "_separator" then Some(i) else Separator(name, nodes[..i])
  }

  /** TemplateNode::Expand. */
  function ExpandNode(env: Env, s: Store, fuel: nat, n: Node, d: nat): Option<Output>
    requires In(s, d)
    decreases fuel, 1, n
  {
    match n
    case TextNode(text) => Some(Output(text, true))
    case VariableNode(name, ms) => Some(Output(Modified(env, ms, GetValue(s, env.globals, d, name)), true))
    case PragmaNode(_) => Some(NOTHING)
    case SectionNode(name, children) =>
      (match FindSection(s, d, name)
       case None => Some(NOTHING)
       case Some(ds) =>
         SectionsAreIn(s, d, name);
         if ds == [] then ExpandOnce(env, s, fuel, name, children, d, true)
         else ExpandEach(env, s, fuel, name, children, ds))
    case IncludeNode(name, ms, indent) =>
      match FindInclude(s, d, name)
      case None => Some(NOTHING)
      case Some(ds) =>
        IncludesAreIn(s, d, name);
        IncludeEach(env, s, fuel, ms, indent, ds)
  }

  /** The children of a section once, in order; sep is the place of its separator. */
  function ExpandAll(env: Env, s: Store, fuel: nat, nodes: seq<Node>, sep: Option<nat>, d: nat, last: bool)
    : Option<Output>
    requires In(s, d) && (sep.Some? ==> sep.value < |nodes| && nodes[sep.value].SectionNode?)
    decreases fuel, 1, nodes, 0
  {
    if nodes == [] then Some(NOTHING)
    else
      var first := ExpandNode(env, s, fuel, nodes[0], d);
      var between :=
        if sep == Some(0) && !last then ExpandOnce(env, s, fuel, nodes[0].name, nodes[0].children, d, true)
        else Some(NOTHING);
      var next := if sep.Some? && sep.value > 0 then Some(sep.value - 1) else None;
      Then(Then(first, between), ExpandAll(env, s, fuel, nodes[1..], next, d, last))
  }

  /** SectionTemplateNode::ExpandOnce. */
  function ExpandOnce(env: Env, s: Store, fuel: nat, name: string, nodes: seq<Node>, d: nat, last: bool): Option<Output>
    requires In(s, d)
    decreases fuel, 1, nodes, 1
  {
    ExpandAll(env, s, fuel, nodes, Separator(name, nodes), d, last)
  }

  /** A section once for each of its dictionaries. */
  function ExpandEach(env: Env, s: Store, fuel: nat, name: string, nodes: seq<Node>, ds: seq<nat>): Option<Output>
    requires forall i :: 0 <= i < |ds| ==> In(s, ds[i])
    decreases fuel, 1, nodes, 2, ds
  {
    if ds == [] then Some(NOTHING)
    else
      Then(ExpandOnce(env, s, fuel, name, nodes, ds[0], |ds| == 1), ExpandEach(env, s, fuel, name, nodes, ds[1..]))
  }

  /** Template::ExpandLocked: false, and nothing written, when the template cannot be had. */
  function ExpandTemplate(env: Env, s: Store, fuel: nat, filename: string, d: nat): Option<Output>
    requires In(s, d)
    decreases fuel, 0, 0
  {
    if filename !in env.templates then Some(Output("", false))
    else if fuel == 0 then None
    else
      match ExpandOnce(env, s, fuel - 1, MAIN.name, env.templates[filename], d, true)
      case None => None
      case Some(out) => Some(Output(env.applyTemplateModifier(filename, out.text), out.ok))
  }

  /** TemplateTemplateNode::ExpandOnce: output in error is dropped where it would be modified. */
  function IncludeOnce(env: Env, s: Store, fuel: nat, ms: seq<Modifier>, indent: string, d: nat): Option<Output>
    requires In(s, d)
    decreases fuel, 0, 1
  {
    if Filename(s, d) == "" then Some(NOTHING)
    else
      match ExpandTemplate(env, s, fuel, Filename(s, d), d)
      case None => None
      case Some(out) =>
        if !env.mightModify(ms) && indent == "" then Some(out)
        else if out.ok then Some(Output(Included(env, ms, indent, out.text), true))
        else Some(Output("", false))
  }

  /** An included template once for each of its dictionaries. */
  function IncludeEach(env: Env, s: Store, fuel: nat, ms: seq<Modifier>, indent: string, ds: seq<nat>): Option<Output>
    requires forall i :: 0 <= i < |ds| ==> In(s, ds[i])
    decreases fuel, 0, 2, ds
  {
    if ds == [] then Some(NOTHING)
    else Then(IncludeOnce(env, s, fuel, ms, indent, ds[0]), IncludeEach(env, s, fuel, ms, indent, ds[1..]))
  }

  lemma SectionsAreIn(s: Store, d: nat, name: string)
    requires In(s, d) && FindSection(s, d, name).Some?
    ensures forall i :: 0 <= i < |FindSection(s, d, name).value| ==> In(s, FindSection(s, d, name).value[i])
  {
    match SectionHolder(s, d, name)
    case Some(h) =>
      assert DictOk(s, h);
      assert Children(s, h, s[h].sections[name], Some(h));
    case None =>
      var g := Global(s, d).value;
      assert DictOk(s, g);
      assert Children(s, g, s[g].sections[name], Some(g));
  }

  lemma IncludesAreIn(s: Store, d: nat, name: string)
    requires In(s, d) && FindInclude(s, d, name).Some?
    ensures forall i :: 0 <= i < |FindInclude(s, d, name).value| ==> In(s, FindInclude(s, d, name).value[i])
  {
    var h := IncludeHolder(s, d, name).value;
    assert DictOk(s, h);
    assert Children(s, h, s[h].includes[name], None);
  }
}

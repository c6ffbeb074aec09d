module TemplateRoundTrip {
  // Parsing undoes printing (template.cc): a tree is printed with given delimiters as a script is
  // written, after a directive that names them, and is the tree that is built from that.

  import opened Wrappers
  import opened TemplateTokens
  import opened TemplateTrees
  import opened TemplateScripts

  // ----- printing a tree -----

  function MarkerOf(n: Node): Marker
    requires !n.TextNode?
  {
    match n
    case VariableNode(name, ms) => Var(name, ms)
    case IncludeNode(name, ms, _) => Inc(name, ms, "")
    case SectionNode(name, children) => Sec(name, "", PartsOf(children), TailOf(children), "")
    case PragmaNode(text) => Prag(text, "")
  }

  /** The nodes but for a text at the end; text next to text ends them as well. */
  function PartsOf(nodes: seq<Node>): seq<Part> {
    if nodes == [] then []
    else if !nodes[0].TextNode? then [Part("", MarkerOf(nodes[0]))] + PartsOf(nodes[1..])
    else if |nodes| == 1 || nodes[1].TextNode? then []
    else [Part(nodes[0].text, MarkerOf(nodes[1]))] + PartsOf(nodes[2..])
  }

  function TailOf(nodes: seq<Node>): string {
    if nodes == [] then ""
    else if !nodes[0].TextNode? then TailOf(nodes[1..])
    else if |nodes| == 1 || nodes[1].TextNode? then nodes[0].text
    else TailOf(nodes[2..])
  }

  function Print(nodes: seq<Node>, ds: Delimiters): string {
    Written(PartsOf(nodes), TailOf(nodes), ds, "")
  }

  // ----- normal form -----

  /**
   A tree that is built from a text: text is not empty and not next to text, and an include has
   the indentation the text before it leaves.
   */
  predicate Shaped(nodes: seq<Node>, first: bool) {
    if nodes == [] then true
    else if nodes[0].TextNode? then
      && nodes[0].text != ""
      && (|nodes| > 1 ==>
            && NodeShaped(nodes[1], GetIndentation(nodes[0].text, first))
            && Shaped(nodes[2..], false))
    else NodeShaped(nodes[0], "") && Shaped(nodes[1..], false)
  }

  predicate NodeShaped(n: Node, indent: string) {
    match n
    case TextNode(_) => false
    case IncludeNode(_, _, ind) => ind == indent
    case SectionNode(_, children) => Shaped(children, true)
    case _ => true
  }

  /** Its print can be read with the delimiters ds. */
  predicate Readable(nodes: seq<Node>, ds: Delimiters, strip: Strip, registry: Registry) {
    PartsFit(PartsOf(nodes), TailOf(nodes), ds, "", true, true, strip, registry)
  }

  lemma {:induction false} NodesOfParts(nodes: seq<Node>, first: bool)
    requires Shaped(nodes, first)
    ensures Nodes(PartsOf(nodes), TailOf(nodes), first) == nodes
    decreases nodes, 1
  {
    if nodes != [] {
      if !nodes[0].TextNode? {
        NodesOfMarker(nodes[0], "");
        NodesOfParts(nodes[1..], false);
        NothingIndented(first);
        assert [nodes[0]] + nodes[1..] == nodes;
      } else if |nodes| == 1 {
        assert nodes == [nodes[0]];
      } else {
        NodesOfMarker(nodes[1], GetIndentation(nodes[0].text, first));
        NodesOfParts(nodes[2..], false);
        assert [nodes[0]] + [nodes[1]] + nodes[2..] == nodes;
      }
    }
  }

  lemma NothingIndented(first: bool)
    ensures GetIndentation("", first) == ""
  {
  }

  lemma {:induction false} NodesOfMarker(n: Node, indent: string)
    requires NodeShaped(n, indent)
    ensures MarkerNodes(MarkerOf(n), indent) == [n]
    decreases n, 0
  {
    if n.SectionNode? {
      NodesOfParts(n.children, true);
    }
  }

  // ----- parsing what is printed -----

  /** Parsing undoes printing with the default delimiters. */
  lemma BuildUndoesPrint(nodes: seq<Node>, strip: Strip, registry: Registry)
    requires Shaped(nodes, true) && Readable(nodes, DEFAULT_DELIMITERS, strip, registry)
    ensures BuildTree(Print(nodes, DEFAULT_DELIMITERS), strip, registry) == Some(nodes)
  {
    NodesOfParts(nodes, true);
    BuildReadsScript(Script(PartsOf(nodes), TailOf(nodes), false), strip, registry);
  }

  /** So no two trees in normal form print alike. */
  lemma PrintIsInjective(a: seq<Node>, b: seq<Node>, strip: Strip, registry: Registry)
    requires Shaped(a, true) && Readable(a, DEFAULT_DELIMITERS, strip, registry)
    requires Shaped(b, true) && Readable(b, DEFAULT_DELIMITERS, strip, registry)
    requires Print(a, DEFAULT_DELIMITERS) == Print(b, DEFAULT_DELIMITERS)
    ensures a == b
  {
    BuildUndoesPrint(a, strip, registry);
    BuildUndoesPrint(b, strip, registry);
  }

  /** Parsing undoes printing between any start and end markers that the text names first. */
  lemma BuildUndoesPrintBetween(nodes: seq<Node>, ds: Delimiters, strip: Strip, registry: Registry)
    requires NoSeparators(ds) && Shaped(nodes, false) && Readable(nodes, ds, strip, registry)
    requires GlueFits("", Print(nodes, ds), strip)
    ensures BuildTree("{{=" + ds.start + " " + ds.end + "=}}" + Print(nodes, ds), strip, registry) == Some(nodes)
  {
    NodesOfParts(nodes, false);
    var first, rest := Part("", Switch(ds, "")), PartsOf(nodes);
    var script := Script([first] + rest, TailOf(nodes), false);
    assert script.parts[1..] == rest;
    assert MarkerText(first.marker, DEFAULT_DELIMITERS, Print(nodes, ds))[0] == '=';
    assert Nodes(script.parts, script.tail, true) == [] + [] + nodes == nodes;
    BuildReadsScript(script, strip, registry);
    DirectiveIsWritten(ds, Print(nodes, ds));
  }

  lemma DirectiveIsWritten(ds: Delimiters, rest: string)
    ensures "" + ("{{" + (DirectiveText(ds) + ("}}" + ("" + rest))))
         == "{{=" + ds.start + " " + ds.end + "=}}" + rest
  {
  }

  // ----- comments -----

  lemma {:induction false} NodesInTwo(a: seq<Part>, b: seq<Part>, tail: string, first: bool)
    ensures Nodes(a + b, tail, first) == Nodes(a, "", first) + Nodes(b, tail, first && a == [])
  {
    if a == [] {
      assert a + b == b && [] + Nodes(b, tail, first) == Nodes(b, tail, first);
    } else {
      assert (a + b)[0] == a[0] && (a + b)[1..] == a[1..] + b;
      NodesInTwo(a[1..], b, tail, false);
      var front := TextNodes(a[0].text) + MarkerNodes(a[0].marker, GetIndentation(a[0].text, first));
      assert front + (Nodes(a[1..], "", false) + Nodes(b, tail, false))
          == front + Nodes(a[1..], "", false) + Nodes(b, tail, false);
    }
  }

  /** A comment or a directive between two markers adds no node and changes none. */
  lemma CommentsAddNothing(a: seq<Part>, m: Marker, b: seq<Part>, tail: string, first: bool)
    requires a != [] && (m.Note? || m.Switch?)
    ensures Nodes(a + [Part("", m)] + b, tail, first) == Nodes(a + b, tail, first)
  {
    NodesInTwo(a + [Part("", m)], b, tail, first);
    NodesInTwo(a, [Part("", m)], "", first);
    NodesInTwo(a, b, tail, first);
    var one := [Part("", m)];
    assert one[1..] == [] && Nodes(one, "", false) == [];
    assert Nodes(a, "", first) + [] == Nodes(a, "", first);
  }
}

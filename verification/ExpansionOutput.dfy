module ExpansionOutput {
  // What expansion writes (template.cc, Expand and ExpandOnce): text as it stands, the values of
  // variables, each section once for each of its dictionaries with the separator in between, each
  // included template once for each of its dictionaries, all in order.

  import opened Wrappers
  import opened TemplateTokens
  import opened TemplateTrees
  import opened TemplateScripts
  import opened Dictionaries
  import opened Expansion

  // ----- outputs one after the other -----

  function InOrder(parts: seq<Option<Output>>): Option<Output> {
    if parts == [] then Some(NOTHING) else Then(parts[0], InOrder(parts[1..]))
  }

  function Concat(texts: seq<string>): string {
    if texts == [] then "" else texts[0] + Concat(texts[1..])
  }

  function Texts(parts: seq<Option<Output>>): (texts: seq<string>)
    requires forall i :: 0 <= i < |parts| ==> parts[i].Some?
    ensures |texts| == |parts| && forall i :: 0 <= i < |parts| ==> texts[i] == parts[i].value.text
  {
    seq(|parts|, i requires 0 <= i < |parts| => parts[i].value.text)
  }

  /** All parts have to end; their texts come in order, and one in error is enough for an error. */
  lemma {:induction false} InOrderIs(parts: seq<Option<Output>>)
    ensures InOrder(parts).Some? <==> forall i :: 0 <= i < |parts| ==> parts[i].Some?
    ensures InOrder(parts).Some? ==>
      && InOrder(parts).value.text == Concat(Texts(parts))
      && (InOrder(parts).value.ok <==> forall i :: 0 <= i < |parts| ==> parts[i].value.ok)
  {
    if parts != [] {
      var rest := parts[1..];
      InOrderIs(rest);
      assert forall i :: 0 <= i < |rest| ==> rest[i] == parts[i + 1];
      assert parts == [parts[0]] + rest;
      if InOrder(parts).Some? {
        assert Texts(parts)[1..] == Texts(rest);
      }
    }
  }

  lemma ThenAssociates(a: Option<Output>, b: Option<Output>, c: Option<Output>)
    ensures Then(Then(a, b), c) == Then(a, Then(b, c))
  {
    if a.Some? && b.Some? && c.Some? {
      assert a.value.text + b.value.text + c.value.text == a.value.text + (b.value.text + c.value.text);
    }
  }

  lemma ThenNothing(a: Option<Output>)
    ensures Then(Some(NOTHING), a) == a && Then(a, Some(NOTHING)) == a
  {
    if a.Some? {
      assert "" + a.value.text == a.value.text && a.value.text + "" == a.value.text;
    }
  }

  lemma {:induction false} InOrderOfBoth(a: seq<Option<Output>>, b: seq<Option<Output>>)
    ensures InOrder(a + b) == Then(InOrder(a), InOrder(b))
  {
    if a == [] {
      assert a + b == b;
      ThenNothing(InOrder(b));
    } else {
      assert (a + b)[0] == a[0] && (a + b)[1..] == a[1..] + b;
      InOrderOfBoth(a[1..], b);
      ThenAssociates(a[0], InOrder(a[1..]), InOrder(b));
    }
  }

  // ----- nodes -----

  ghost function NodeOutputs(env: Env, s: Store, fuel: nat, nodes: seq<Node>, d: nat): (r: seq<Option<Output>>)
    requires In(s, d)
    ensures |r| == |nodes| && forall i :: 0 <= i < |nodes| ==> r[i] == ExpandNode(env, s, fuel, nodes[i], d)
  {
    seq(|nodes|, i requires 0 <= i < |nodes| => ExpandNode(env, s, fuel, nodes[i], d))
  }

  lemma OutputsUnfold(env: Env, s: Store, fuel: nat, nodes: seq<Node>, d: nat)
    requires In(s, d) && nodes != []
    ensures NodeOutputs(env, s, fuel, nodes, d) ==
      [ExpandNode(env, s, fuel, nodes[0], d)] + NodeOutputs(env, s, fuel, nodes[1..], d)
  {
  }

  /** The nodes of a section when no separator is due. */
  lemma {:induction false} NodesInOrder(env: Env, s: Store, fuel: nat, nodes: seq<Node>, sep: Option<nat>, d: nat,
                                        last: bool)
    requires In(s, d) && (sep.Some? ==> last && sep.value < |nodes| && nodes[sep.value].SectionNode?)
    ensures ExpandAll(env, s, fuel, nodes, sep, d, last) == InOrder(NodeOutputs(env, s, fuel, nodes, d))
    decreases |nodes|
  {
    if nodes != [] {
      var next := if sep.Some? && sep.value > 0 then Some(sep.value - 1) else None;
      NodesInOrder(env, s, fuel, nodes[1..], next, d, last);
      OutputsUnfold(env, s, fuel, nodes, d);
      ThenNothing(ExpandNode(env, s, fuel, nodes[0], d));
    }
  }

  /** The last subsection named after the section. */
  ghost predicate IsSeparator(name: string, nodes: seq<Node>, k: nat) {
    && k < |nodes| && nodes[k].SectionNode? && nodes[k].name == name + "_separator"
    && forall j :: k < j < |nodes| ==> !(nodes[j].SectionNode? && nodes[j].name == name + "_separator")
  }

  lemma {:induction false} SeparatorIs(name: string, nodes: seq<Node>)
    ensures forall k: nat :: Separator(name, nodes) == Some(k) <==> IsSeparator(name, nodes, k)
  {
    if nodes != [] {
      var i := |nodes| - 1;
      SeparatorIs(name, nodes[..i]);
      if !(nodes[i].SectionNode? && nodes[i].name == name + "_separator") {
        forall k: nat ensures IsSeparator(name, nodes, k) <==> IsSeparator(name, nodes[..i], k) {
          assert forall j :: 0 <= j < i ==> nodes[..i][j] == nodes[j];
        }
      }
    }
  }

  /** Nodes, and the children of the one at sep once more after it. */
  lemma {:induction false} NodesAndSeparator(env: Env, s: Store, fuel: nat, nodes: seq<Node>, k: nat, d: nat)
    requires In(s, d) && k < |nodes| && nodes[k].SectionNode?
    ensures ExpandAll(env, s, fuel, nodes, Some(k), d, false) ==
      InOrder(NodeOutputs(env, s, fuel, nodes[..k + 1], d) + NodeOutputs(env, s, fuel, nodes[k].children, d)
              + NodeOutputs(env, s, fuel, nodes[k + 1..], d))
    decreases k
  {
    hide ExpandNode, Then;
    var n := nodes[0];
    var first := ExpandNode(env, s, fuel, n, d);
    var separator := NodeOutputs(env, s, fuel, nodes[k].children, d);
    var rest := NodeOutputs(env, s, fuel, nodes[k + 1..], d);
    if k == 0 {
      SeparatorIs(n.name, n.children);
      NodesInOrder(env, s, fuel, n.children, Separator(n.name, n.children), d, true);
      NodesInOrder(env, s, fuel, nodes[1..], None, d, false);
      assert NodeOutputs(env, s, fuel, nodes[..1], d) == [first];
      InOrderOfBoth([first], separator);
      InOrderOfBoth([first] + separator, rest);
      ThenNothing(first);
      assert InOrder([first]) == Then(first, InOrder([]));
    } else {
      NodesAndSeparator(env, s, fuel, nodes[1..], k - 1, d);
      assert nodes[1..][..k] == nodes[..k + 1][1..] && nodes[1..][k..] == nodes[k + 1..];
      OutputsUnfold(env, s, fuel, nodes[..k + 1], d);
      var before := NodeOutputs(env, s, fuel, nodes[..k + 1][1..], d);
      assert [first] + before + separator + rest == [first] + (before + separator + rest);
      ThenNothing(first);
      assert ([first] + (before + separator + rest))[1..] == before + separator + rest;
    }
  }

  /** Once with nothing to separate from: the nodes in order. */
  lemma LastOnceWrites(env: Env, s: Store, fuel: nat, name: string, nodes: seq<Node>, d: nat, last: bool)
    requires In(s, d) && (last || forall k :: !IsSeparator(name, nodes, k))
    ensures ExpandOnce(env, s, fuel, name, nodes, d, last) == InOrder(NodeOutputs(env, s, fuel, nodes, d))
  {
    SeparatorIs(name, nodes);
    var sep := Separator(name, nodes);
    if sep.Some? {
      assert IsSeparator(name, nodes, sep.value);
    }
    NodesInOrder(env, s, fuel, nodes, sep, d, last);
  }

  /** Once with more to come: the separator's nodes right after the place it stands at. */
  lemma OnceWithSeparatorWrites(env: Env, s: Store, fuel: nat, name: string, nodes: seq<Node>, d: nat, k: nat)
    requires In(s, d) && IsSeparator(name, nodes, k)
    ensures ExpandOnce(env, s, fuel, name, nodes, d, false) ==
      InOrder(NodeOutputs(env, s, fuel, nodes[..k + 1], d) + NodeOutputs(env, s, fuel, nodes[k].children, d)
              + NodeOutputs(env, s, fuel, nodes[k + 1..], d))
  {
    SeparatorIs(name, nodes);
    NodesAndSeparator(env, s, fuel, nodes, k, d);
  }

  // ----- sections and includes -----

  /** A hidden section or include writes nothing. */
  lemma HiddenWritesNothing(env: Env, s: Store, fuel: nat, n: Node, d: nat)
    requires In(s, d)
    requires (n.SectionNode? && IsHiddenSection(s, d, n.name)) || (n.IncludeNode? && IsHiddenTemplate(s, d, n.name))
    ensures ExpandNode(env, s, fuel, n, d) == Some(NOTHING)
  {
  }

  lemma {:induction false} EachInOrder(env: Env, s: Store, fuel: nat, name: string, nodes: seq<Node>, ds: seq<nat>,
                                       rounds: seq<Option<Output>>)
    requires |rounds| == |ds| && forall i :: 0 <= i < |ds| ==> In(s, ds[i])
    requires forall i :: 0 <= i < |ds| ==>
      rounds[i] == ExpandOnce(env, s, fuel, name, nodes, ds[i], i == |ds| - 1)
    ensures ExpandEach(env, s, fuel, name, nodes, ds) == InOrder(rounds)
    decreases |ds|
  {
    hide ExpandOnce;
    if ds != [] {
      forall i | 0 <= i < |ds| - 1
        ensures rounds[1..][i] == ExpandOnce(env, s, fuel, name, nodes, ds[1..][i], i == |ds[1..]| - 1)
      {
        assert rounds[1..][i] == rounds[i + 1] && ds[1..][i] == ds[i + 1];
      }
      EachInOrder(env, s, fuel, name, nodes, ds[1..], rounds[1..]);
    }
  }

  /** A shown section is written once for each of its dictionaries, in order; the last has none to come. */
  lemma ShownSectionWrites(env: Env, s: Store, fuel: nat, name: string, nodes: seq<Node>, d: nat,
                           rounds: seq<Option<Output>>)
    requires In(s, d) && !IsHiddenSection(s, d, name)
    requires var ds := FindSection(s, d, name).value;
      |rounds| == |ds| && forall i :: 0 <= i < |ds| ==>
        In(s, ds[i]) && rounds[i] == ExpandOnce(env, s, fuel, name, nodes, ds[i], i == |ds| - 1)
    ensures rounds != [] && ExpandNode(env, s, fuel, SectionNode(name, nodes), d) == InOrder(rounds)
  {
    hide ExpandOnce;
    SectionsAreIn(s, d, name);
    SectionIsNotEmpty(s, d, name);
    EachInOrder(env, s, fuel, name, nodes, FindSection(s, d, name).value, rounds);
  }

  lemma SectionIsNotEmpty(s: Store, d: nat, name: string)
    requires In(s, d) && !IsHiddenSection(s, d, name)
    ensures FindSection(s, d, name).value != []
  {
    match SectionHolder(s, d, name)
    case Some(h) =>
      assert DictOk(s, h) && Children(s, h, s[h].sections[name], Some(h));
    case None =>
      var g := Global(s, d).value;
      assert DictOk(s, g) && Children(s, g, s[g].sections[name], Some(g));
  }

  lemma {:induction false} IncludesInOrder(env: Env, s: Store, fuel: nat, ms: seq<Modifier>, indent: string,
                                           ds: seq<nat>, each: seq<Option<Output>>)
    requires |each| == |ds| && forall i :: 0 <= i < |ds| ==> In(s, ds[i])
    requires forall i :: 0 <= i < |ds| ==> each[i] == IncludeOnce(env, s, fuel, ms, indent, ds[i])
    ensures IncludeEach(env, s, fuel, ms, indent, ds) == InOrder(each)
    decreases |ds|
  {
    hide IncludeOnce;
    if ds != [] {
      forall i | 0 <= i < |ds| - 1 ensures each[1..][i] == IncludeOnce(env, s, fuel, ms, indent, ds[1..][i]) {
        assert each[1..][i] == each[i + 1] && ds[1..][i] == ds[i + 1];
      }
      IncludesInOrder(env, s, fuel, ms, indent, ds[1..], each[1..]);
    }
  }

  /** A shown include is written once for each of its dictionaries, in order. */
  lemma ShownIncludeWrites(env: Env, s: Store, fuel: nat, n: Node, d: nat, each: seq<Option<Output>>)
    requires In(s, d) && n.IncludeNode? && !IsHiddenTemplate(s, d, n.name)
    requires var ds := FindInclude(s, d, n.name).value;
      |each| == |ds| && forall i :: 0 <= i < |ds| ==>
        In(s, ds[i]) && each[i] == IncludeOnce(env, s, fuel, n.modifiers, n.indent, ds[i])
    ensures ExpandNode(env, s, fuel, n, d) == InOrder(each)
  {
    hide IncludeOnce;
    IncludesAreIn(s, d, n.name);
    IncludesInOrder(env, s, fuel, n.modifiers, n.indent, FindInclude(s, d, n.name).value, each);
  }

  /**
   What one dictionary of an include writes: nothing without a file name; with neither modifiers
   nor indentation just what its template writes, in error or not; else nothing of a template in
   error, and of another one all of it, modified, and indented after every line end.
   */
  lemma IncludeWritesTemplate(env: Env, s: Store, fuel: nat, ms: seq<Modifier>, indent: string, d: nat)
    requires In(s, d)
    ensures var inner := ExpandTemplate(env, s, fuel, Filename(s, d), d);
      var outer := IncludeOnce(env, s, fuel, ms, indent, d);
      && (Filename(s, d) == "" ==> outer == Some(NOTHING))
      && (Filename(s, d) != "" && inner.None? ==> outer == None)
      && (Filename(s, d) != "" && !env.mightModify(ms) && indent == "" ==> outer == inner)
      && (Filename(s, d) != "" && (env.mightModify(ms) || indent != "") && inner.Some? ==>
            && outer.Some? && outer.value.ok == inner.value.ok
            && (!inner.value.ok ==> outer.value.text == "")
            && (inner.value.ok ==>
                  var modified := if ms == [] then inner.value.text else env.applyModifiers(ms, inner.value.text);
                  outer.value.text == if indent == "" then modified else PrefixLines(modified, indent)))
  {
    hide ExpandTemplate, PrefixLines;
  }

  // ----- templates -----

  /** A template is its nodes in order, with its own modifier over all of it. */
  lemma TemplateWritesNodes(env: Env, s: Store, fuel: nat, filename: string, d: nat)
    requires In(s, d)
    ensures filename !in env.templates ==> ExpandTemplate(env, s, fuel, filename, d) == Some(Output("", false))
    ensures filename in env.templates && fuel > 0 ==>
      var written := InOrder(NodeOutputs(env, s, fuel - 1, env.templates[filename], d));
      var r := ExpandTemplate(env, s, fuel, filename, d);
      && (r.None? <==> written.None?)
      && (r.Some? ==> r.value == Output(env.applyTemplateModifier(filename, written.value.text), written.value.ok))
  {
    if filename in env.templates && fuel > 0 {
      LastOnceWrites(env, s, fuel - 1, MAIN.name, env.templates[filename], d, true);
    }
  }

  /** What a text or a variable stands for; a pragma stands for nothing. */
  ghost predicate Stands(env: Env, s: Store, d: nat, n: Node, text: string)
    requires In(s, d)
  {
    match n
    case TextNode(t) => text == t
    case VariableNode(name, ms) =>
      var value := GetValue(s, env.globals, d, name);
      text == if env.mightModify(ms) then env.applyModifiers(ms, value) else value
    case PragmaNode(_) => text == ""
    case _ => false
  }

  lemma NodeStands(env: Env, s: Store, fuel: nat, d: nat, n: Node, text: string)
    requires In(s, d) && Stands(env, s, d, n, text)
    ensures ExpandNode(env, s, fuel, n, d) == Some(Output(text, true))
  {
  }

  /** A template of texts and variables writes the texts with the values in between. */
  lemma FlatTemplateWrites(env: Env, s: Store, fuel: nat, filename: string, d: nat, texts: seq<string>)
    requires In(s, d) && filename in env.templates && fuel > 0
    requires var nodes := env.templates[filename];
      |texts| == |nodes| && forall i :: 0 <= i < |nodes| ==> Stands(env, s, d, nodes[i], texts[i])
    ensures ExpandTemplate(env, s, fuel, filename, d) ==
      Some(Output(env.applyTemplateModifier(filename, Concat(texts)), true))
  {
    hide ExpandNode, Stands;
    var nodes := env.templates[filename];
    var parts := NodeOutputs(env, s, fuel - 1, nodes, d);
    forall i | 0 <= i < |nodes| ensures parts[i] == Some(Output(texts[i], true)) {
      NodeStands(env, s, fuel - 1, d, nodes[i], texts[i]);
    }
    TemplateWritesNodes(env, s, fuel, filename, d);
    InOrderIs(parts);
    assert Texts(parts) == texts;
  }

  /** So does one parsed from a text, comments and changes of delimiters or not. */
  lemma WrittenTemplateWrites(env: Env, s: Store, fuel: nat, filename: string, d: nat, script: Script,
                              texts: seq<string>, strip: Strip, registry: Registry)
    requires In(s, d) && filename in env.templates && fuel > 0 && Fits(script, strip, registry)
    requires BuildTree(Template(script), strip, registry) == Some(env.templates[filename])
    requires var nodes := Meaning(script);
      |texts| == |nodes| && forall i :: 0 <= i < |nodes| ==> Stands(env, s, d, nodes[i], texts[i])
    ensures ExpandTemplate(env, s, fuel, filename, d) ==
      Some(Output(env.applyTemplateModifier(filename, Concat(texts)), true))
  {
    hide Stands, Fits, Template, Meaning, BuildTree, ExpandTemplate;
    BuildReadsScript(script, strip, registry);
    FlatTemplateWrites(env, s, fuel, filename, d, texts);
  }

  /** A text without a start marker is a template that writes itself. */
  lemma TextWritesItself(env: Env, s: Store, fuel: nat, filename: string, d: nat, text: string, strip: Strip,
                         registry: Registry)
    requires In(s, d) && filename in env.templates && fuel > 0 && NoStart(text, "{{")
    requires BuildTree(text, strip, registry) == Some(env.templates[filename])
    ensures ExpandTemplate(env, s, fuel, filename, d) == Some(Output(env.applyTemplateModifier(filename, text), true))
  {
    hide ExpandTemplate, BuildTree;
    var script := Script([], text, false);
    assert text + "" == text;
    var texts := if text == "" then [] else [text];
    assert text != "" ==> [text][1..] == [] && text + Concat([]) == text;
    WrittenTemplateWrites(env, s, fuel, filename, d, script, texts, strip, registry);
  }
}

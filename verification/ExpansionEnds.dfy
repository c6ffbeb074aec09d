module ExpansionEnds {
  // When expansion ends (template.cc, Expand and ExpandOnce of sections and includes).
  //
  // One include calls another when expanding the first one's template, with its dictionary,
  // reaches an include node that stands for the second.  Expansion goes on for ever exactly when
  // some include that is reached reaches itself.  Without template-global sections none does.

  import opened Wrappers
  import opened TemplateTokens
  import opened TemplateTrees
  import opened Dictionaries
  import opened DictionaryLikeness
  import opened Expansion

  // ----- which includes a template reaches -----

  /** The dictionaries of all include nodes reached when n is expanded with d. */
  ghost function NodeIncludes(s: Store, n: Node, d: nat): (r: set<nat>)
    requires In(s, d)
    ensures forall c :: c in r ==> In(s, c)
    decreases n
  {
    match n
    case SectionNode(name, children) =>
      (match FindSection(s, d, name)
       case None => {}
       case Some(ds) =>
         SectionsAreIn(s, d, name);
         if ds == [] then OnceIncludes(s, name, children, d, true) else EachIncludes(s, name, children, ds))
    case IncludeNode(name, _, _) =>
      (match FindInclude(s, d, name)
       case None => {}
       case Some(ds) =>
         IncludesAreIn(s, d, name);
         set c | c in ds)
    case _ => {}
  }

  ghost function AllIncludes(s: Store, nodes: seq<Node>, sep: Option<nat>, d: nat, last: bool): (r: set<nat>)
    requires In(s, d) && (sep.Some? ==> sep.value < |nodes| && nodes[sep.value].SectionNode?)
    ensures forall c :: c in r ==> In(s, c)
    decreases nodes, 0
  {
    if nodes == [] then {}
    else
      var between := if sep == Some(0) && !last then OnceIncludes(s, nodes[0].name, nodes[0].children, d, true) else {};
      var next := if sep.Some? && sep.value > 0 then Some(sep.value - 1) else None;
      NodeIncludes(s, nodes[0], d) + between + AllIncludes(s, nodes[1..], next, d, last)
  }

  ghost function OnceIncludes(s: Store, name: string, nodes: seq<Node>, d: nat, last: bool): (r: set<nat>)
    requires In(s, d)
    ensures forall c :: c in r ==> In(s, c)
    decreases nodes, 1
  {
    AllIncludes(s, nodes, Separator(name, nodes), d, last)
  }

  ghost function EachIncludes(s: Store, name: string, nodes: seq<Node>, ds: seq<nat>): (r: set<nat>)
    requires forall i :: 0 <= i < |ds| ==> In(s, ds[i])
    ensures forall c :: c in r ==> In(s, c)
    decreases nodes, 2, ds
  {
    if ds == [] then {} else OnceIncludes(s, name, nodes, ds[0], |ds| == 1) + EachIncludes(s, name, nodes, ds[1..])
  }

  /** The includes a template calls: those it reaches whose own templates can be had. */
  ghost function Called(env: Env, s: Store, filename: string, d: nat): set<nat>
    requires In(s, d) && filename in env.templates
  {
    set c | c in OnceIncludes(s, MAIN.name, env.templates[filename], d, true) && IsTemplate(env, s, c)
  }

  ghost predicate IsTemplate(env: Env, s: Store, c: nat) {
    c < |s| && Filename(s, c) != "" && Filename(s, c) in env.templates
  }

  /** Each include on the path is called by the one before it, the first by the template itself. */
  ghost predicate Path(env: Env, s: Store, filename: string, d: nat, path: seq<nat>)
    decreases |path|
  {
    && In(s, d) && filename in env.templates
    && (path != [] ==>
          path[0] in Called(env, s, filename, d) && Path(env, s, Filename(s, path[0]), path[0], path[1..]))
  }

  /** Some include comes twice on the path: it reaches itself. */
  ghost predicate Repeats(path: seq<nat>) {
    exists i, j :: 0 <= i < j < |path| && path[i] == path[j]
  }

  /** An include that the template reaches reaches itself. */
  ghost predicate Loops(env: Env, s: Store, filename: string, d: nat) {
    exists path :: Path(env, s, filename, d, path) && Repeats(path)
  }

  // ----- expansion runs out of fuel where an include does -----

  /** Expanding the template of include c runs out of fuel. */
  ghost predicate RunsOut(env: Env, s: Store, fuel: nat, c: nat) {
    In(s, c) && Filename(s, c) != "" && ExpandTemplate(env, s, fuel, Filename(s, c), c).None?
  }

  ghost predicate AnyRunsOut(env: Env, s: Store, fuel: nat, cs: set<nat>) {
    exists c :: c in cs && RunsOut(env, s, fuel, c)
  }

  lemma EitherRunsOut(env: Env, s: Store, fuel: nat, a: set<nat>, b: set<nat>)
    ensures AnyRunsOut(env, s, fuel, a + b) <==> AnyRunsOut(env, s, fuel, a) || AnyRunsOut(env, s, fuel, b)
  {
    hide RunsOut;
    if AnyRunsOut(env, s, fuel, a) {
      var c :| c in a && RunsOut(env, s, fuel, c);
      assert c in a + b;
    } else if AnyRunsOut(env, s, fuel, b) {
      var c :| c in b && RunsOut(env, s, fuel, c);
      assert c in a + b;
    }
  }

  lemma {:induction false} IncludesRunOut(env: Env, s: Store, fuel: nat, ms: seq<Modifier>, indent: string,
                                          ds: seq<nat>)
    requires forall i :: 0 <= i < |ds| ==> In(s, ds[i])
    ensures IncludeEach(env, s, fuel, ms, indent, ds).None? <==> AnyRunsOut(env, s, fuel, set c | c in ds)
    decreases |ds|
  {
    hide ExpandTemplate;
    if ds != [] {
      IncludesRunOut(env, s, fuel, ms, indent, ds[1..]);
      assert (set c | c in ds) == {ds[0]} + (set c | c in ds[1..]);
      EitherRunsOut(env, s, fuel, {ds[0]}, set c | c in ds[1..]);
      assert AnyRunsOut(env, s, fuel, {ds[0]}) <==> RunsOut(env, s, fuel, ds[0]) by {
        assert ds[0] in {ds[0]};
      }
      assert IncludeOnce(env, s, fuel, ms, indent, ds[0]).None? <==> RunsOut(env, s, fuel, ds[0]);
    }
  }

  lemma {:induction false} NodeRunsOut(env: Env, s: Store, fuel: nat, n: Node, d: nat)
    requires In(s, d)
    ensures ExpandNode(env, s, fuel, n, d).None? <==> AnyRunsOut(env, s, fuel, NodeIncludes(s, n, d))
    decreases n
  {
    hide AnyRunsOut, ExpandAll, AllIncludes, IncludeEach;
    NoneRunsOut(env, s, fuel);
    match n
    case SectionNode(name, children) =>
      if FindSection(s, d, name).Some? {
        SectionsAreIn(s, d, name);
        var ds := FindSection(s, d, name).value;
        if ds == [] {
          OnceRunsOut(env, s, fuel, name, children, d, true);
        } else {
          EachRunsOut(env, s, fuel, name, children, ds);
        }
      }
    case IncludeNode(name, ms, indent) =>
      if FindInclude(s, d, name).Some? {
        IncludesAreIn(s, d, name);
        IncludesRunOut(env, s, fuel, ms, indent, FindInclude(s, d, name).value);
      }
    case _ =>
  }

  lemma NoneRunsOut(env: Env, s: Store, fuel: nat)
    ensures !AnyRunsOut(env, s, fuel, {})
  {
  }

  lemma {:induction false} AllRunOut(env: Env, s: Store, fuel: nat, nodes: seq<Node>, sep: Option<nat>, d: nat,
                                     last: bool)
    requires In(s, d) && (sep.Some? ==> sep.value < |nodes| && nodes[sep.value].SectionNode?)
    ensures ExpandAll(env, s, fuel, nodes, sep, d, last).None?
      <==> AnyRunsOut(env, s, fuel, AllIncludes(s, nodes, sep, d, last))
    decreases nodes, 0
  {
    hide AnyRunsOut, ExpandNode, NodeIncludes, ExpandOnce, OnceIncludes;
    NoneRunsOut(env, s, fuel);
    if nodes != [] {
      var separate := sep == Some(0) && !last;
      var first := NodeIncludes(s, nodes[0], d);
      var between := if separate then OnceIncludes(s, nodes[0].name, nodes[0].children, d, true) else {};
      var next := if sep.Some? && sep.value > 0 then Some(sep.value - 1) else None;
      NodeRunsOut(env, s, fuel, nodes[0], d);
      if separate {
        OnceRunsOut(env, s, fuel, nodes[0].name, nodes[0].children, d, true);
      }
      AllRunOut(env, s, fuel, nodes[1..], next, d, last);
      EitherRunsOut(env, s, fuel, first, between);
      EitherRunsOut(env, s, fuel, first + between, AllIncludes(s, nodes[1..], next, d, last));
    }
  }

  lemma {:induction false} OnceRunsOut(env: Env, s: Store, fuel: nat, name: string, nodes: seq<Node>, d: nat,
                                       last: bool)
    requires In(s, d)
    ensures ExpandOnce(env, s, fuel, name, nodes, d, last).None?
      <==> AnyRunsOut(env, s, fuel, OnceIncludes(s, name, nodes, d, last))
    decreases nodes, 1
  {
    AllRunOut(env, s, fuel, nodes, Separator(name, nodes), d, last);
  }

  lemma {:induction false} EachRunsOut(env: Env, s: Store, fuel: nat, name: string, nodes: seq<Node>, ds: seq<nat>)
    requires forall i :: 0 <= i < |ds| ==> In(s, ds[i])
    ensures ExpandEach(env, s, fuel, name, nodes, ds).None?
      <==> AnyRunsOut(env, s, fuel, EachIncludes(s, name, nodes, ds))
    decreases nodes, 2, ds
  {
    hide AnyRunsOut, ExpandOnce, OnceIncludes;
    NoneRunsOut(env, s, fuel);
    if ds != [] {
      OnceRunsOut(env, s, fuel, name, nodes, ds[0], |ds| == 1);
      EachRunsOut(env, s, fuel, name, nodes, ds[1..]);
      EitherRunsOut(env, s, fuel, OnceIncludes(s, name, nodes, ds[0], |ds| == 1),
                    EachIncludes(s, name, nodes, ds[1..]));
    }
  }

  /** A template runs out of fuel at once, or when one that it calls does with one less. */
  lemma TemplateRunsOut(env: Env, s: Store, fuel: nat, filename: string, d: nat)
    requires In(s, d) && filename in env.templates
    ensures ExpandTemplate(env, s, fuel, filename, d).None? <==>
      || fuel == 0
      || exists c :: c in Called(env, s, filename, d) && ExpandTemplate(env, s, fuel - 1, Filename(s, c), c).None?
  {
    if fuel > 0 {
      hide ExpandOnce, OnceIncludes;
      var nodes := env.templates[filename];
      OnceRunsOut(env, s, fuel - 1, MAIN.name, nodes, d, true);
      assert ExpandTemplate(env, s, fuel, filename, d).None?
        <==> AnyRunsOut(env, s, fuel - 1, OnceIncludes(s, MAIN.name, nodes, d, true));
      if AnyRunsOut(env, s, fuel - 1, OnceIncludes(s, MAIN.name, nodes, d, true)) {
        var c :| c in OnceIncludes(s, MAIN.name, nodes, d, true) && RunsOut(env, s, fuel - 1, c);
        assert c in Called(env, s, filename, d);
      }
    }
  }

  // ----- paths -----

  /** Fuel that runs out was used up on a path of that many includes. */
  lemma {:induction false} PathToTheEnd(env: Env, s: Store, fuel: nat, filename: string, d: nat)
    returns (path: seq<nat>)
    requires In(s, d) && ExpandTemplate(env, s, fuel, filename, d).None?
    ensures |path| == fuel && Path(env, s, filename, d, path)
    decreases fuel
  {
    path := [];
    if fuel > 0 {
      hide ExpandTemplate;
      TemplateRunsOut(env, s, fuel, filename, d);
      var c :| c in Called(env, s, filename, d) && ExpandTemplate(env, s, fuel - 1, Filename(s, c), c).None?;
      var rest := PathToTheEnd(env, s, fuel - 1, Filename(s, c), c);
      path := [c] + rest;
      assert path[1..] == rest;
    }
  }

  /** What comes on a path after its first i includes. */
  lemma {:induction false} PathFrom(env: Env, s: Store, filename: string, d: nat, path: seq<nat>, i: nat)
    requires Path(env, s, filename, d, path) && i < |path|
    ensures path[i] < |s| && Path(env, s, Filename(s, path[i]), path[i], path[i + 1..])
    decreases i
  {
    if i > 0 {
      PathFrom(env, s, Filename(s, path[0]), path[0], path[1..], i - 1);
      assert path[1..][i..] == path[i + 1..];
    }
  }

  lemma {:induction false} Pigeonhole(path: seq<nat>, n: nat)
    requires |path| > n && forall i :: 0 <= i < |path| ==> path[i] < n
    ensures Repeats(path)
    decreases n
  {
    if k :| 0 <= k < |path| && path[k] == n - 1 {
      var rest := path[..k] + path[k + 1..];
      if j :| 0 <= j < |rest| && rest[j] == n - 1 {
        var i := if j < k then j else j + 1;
        assert path[i] == path[k] && i != k;
      } else {
        Pigeonhole(rest, n - 1);
        var i, j :| 0 <= i < j < |rest| && rest[i] == rest[j];
        assert path[if i < k then i else i + 1] == path[if j < k then j else j + 1];
      }
    } else {
      assert path[0] < n;
      Pigeonhole(path, n - 1);
    }
  }

  /** From the i-th include of a path that comes back to it, expansion never ends. */
  lemma {:induction false} NeverEnds(env: Env, s: Store, fuel: nat, filename: string, d: nat, path: seq<nat>,
                                     i: nat, j: nat, k: nat)
    requires Path(env, s, filename, d, path) && i < j < |path| && path[i] == path[j] && k <= j
    ensures path[k] < |s| && ExpandTemplate(env, s, fuel, Filename(s, path[k]), path[k]).None?
    decreases fuel
  {
    hide ExpandTemplate, Called;
    PathFrom(env, s, filename, d, path, k);
    TemplateRunsOut(env, s, fuel, Filename(s, path[k]), path[k]);
    if fuel > 0 {
      var from := if k == j then i else k;
      PathFrom(env, s, filename, d, path, from);
      assert path[from + 1..][0] == path[from + 1];
      NeverEnds(env, s, fuel - 1, filename, d, path, i, j, from + 1);
    }
  }

  /**
   Expansion ends exactly when no include that is reached reaches itself, and then with includes
   at most as deep as there are dictionaries; otherwise it ends at no depth.
   */
  lemma ExpansionEndsIff(env: Env, s: Store, filename: string, d: nat)
    requires In(s, d)
    ensures ExpandTemplate(env, s, |s| + 1, filename, d).Some? <==> !Loops(env, s, filename, d)
    ensures Loops(env, s, filename, d) <==> forall fuel: nat :: ExpandTemplate(env, s, fuel, filename, d).None?
  {
    hide ExpandTemplate, Repeats, Called;
    if ExpandTemplate(env, s, |s| + 1, filename, d).None? {
      var path := PathToTheEnd(env, s, |s| + 1, filename, d);
      forall i | 0 <= i < |path| ensures path[i] < |s| {
        PathFrom(env, s, filename, d, path, i);
      }
      Pigeonhole(path, |s|);
      assert Loops(env, s, filename, d);
    }
    if Loops(env, s, filename, d) {
      forall fuel: nat ensures ExpandTemplate(env, s, fuel, filename, d).None? {
        LoopsForever(env, s, fuel, filename, d);
      }
    }
  }

  lemma LoopsForever(env: Env, s: Store, fuel: nat, filename: string, d: nat)
    requires Loops(env, s, filename, d)
    ensures In(s, d) && ExpandTemplate(env, s, fuel, filename, d).None?
  {
    hide ExpandTemplate, Called;
    var path :| Path(env, s, filename, d, path) && Repeats(path);
    var i, j :| 0 <= i < j < |path| && path[i] == path[j];
    TemplateRunsOut(env, s, fuel, filename, d);
    if fuel > 0 {
      NeverEnds(env, s, fuel - 1, filename, d, path, i, j, 0);
    }
  }

  // ----- the bound on inclusion does not show -----

  lemma {:induction false} NodeSettled(env: Env, s: Store, fuel: nat, more: nat, n: Node, d: nat)
    requires In(s, d) && fuel <= more && ExpandNode(env, s, fuel, n, d).Some?
    ensures ExpandNode(env, s, more, n, d) == ExpandNode(env, s, fuel, n, d)
    decreases fuel, 1, n
  {
    match n
    case SectionNode(name, children) =>
      if FindSection(s, d, name).Some? {
        SectionsAreIn(s, d, name);
        var ds := FindSection(s, d, name).value;
        if ds == [] {
          OnceSettled(env, s, fuel, more, name, children, d, true);
        } else {
          EachSettled(env, s, fuel, more, name, children, ds);
        }
      }
    case IncludeNode(name, ms, indent) =>
      if FindInclude(s, d, name).Some? {
        IncludesAreIn(s, d, name);
        IncludesSettled(env, s, fuel, more, ms, indent, FindInclude(s, d, name).value);
      }
    case _ =>
  }

  lemma {:induction false} AllSettled(env: Env, s: Store, fuel: nat, more: nat, nodes: seq<Node>, sep: Option<nat>,
                                      d: nat, last: bool)
    requires In(s, d) && (sep.Some? ==> sep.value < |nodes| && nodes[sep.value].SectionNode?)
    requires fuel <= more && ExpandAll(env, s, fuel, nodes, sep, d, last).Some?
    ensures ExpandAll(env, s, more, nodes, sep, d, last) == ExpandAll(env, s, fuel, nodes, sep, d, last)
    decreases fuel, 1, nodes, 0
  {
    if nodes != [] {
      NodeSettled(env, s, fuel, more, nodes[0], d);
      if sep == Some(0) && !last {
        OnceSettled(env, s, fuel, more, nodes[0].name, nodes[0].children, d, true);
      }
      var next := if sep.Some? && sep.value > 0 then Some(sep.value - 1) else None;
      AllSettled(env, s, fuel, more, nodes[1..], next, d, last);
    }
  }

  lemma {:induction false} OnceSettled(env: Env, s: Store, fuel: nat, more: nat, name: string, nodes: seq<Node>,
                                       d: nat, last: bool)
    requires In(s, d) && fuel <= more && ExpandOnce(env, s, fuel, name, nodes, d, last).Some?
    ensures ExpandOnce(env, s, more, name, nodes, d, last) == ExpandOnce(env, s, fuel, name, nodes, d, last)
    decreases fuel, 1, nodes, 1
  {
    AllSettled(env, s, fuel, more, nodes, Separator(name, nodes), d, last);
  }

  lemma {:induction false} EachSettled(env: Env, s: Store, fuel: nat, more: nat, name: string, nodes: seq<Node>,
                                       ds: seq<nat>)
    requires forall i :: 0 <= i < |ds| ==> In(s, ds[i])
    requires fuel <= more && ExpandEach(env, s, fuel, name, nodes, ds).Some?
    ensures ExpandEach(env, s, more, name, nodes, ds) == ExpandEach(env, s, fuel, name, nodes, ds)
    decreases fuel, 1, nodes, 2, ds
  {
    if ds != [] {
      OnceSettled(env, s, fuel, more, name, nodes, ds[0], |ds| == 1);
      EachSettled(env, s, fuel, more, name, nodes, ds[1..]);
    }
  }

  lemma {:induction false} IncludeSettled(env: Env, s: Store, fuel: nat, more: nat, ms: seq<Modifier>,
                                          indent: string, d: nat)
    requires In(s, d) && fuel <= more && IncludeOnce(env, s, fuel, ms, indent, d).Some?
    ensures IncludeOnce(env, s, more, ms, indent, d) == IncludeOnce(env, s, fuel, ms, indent, d)
    decreases fuel, 0, 1
  {
    var filename := Filename(s, d);
    if filename != "" {
      TemplateSettled(env, s, fuel, more, filename, d);
    }
  }

  /** Once expansion ends, what it writes does not depend on how deep inclusion was allowed to go. */
  lemma {:induction false} TemplateSettled(env: Env, s: Store, fuel: nat, more: nat, filename: string, d: nat)
    requires In(s, d) && fuel <= more && ExpandTemplate(env, s, fuel, filename, d).Some?
    ensures ExpandTemplate(env, s, more, filename, d) == ExpandTemplate(env, s, fuel, filename, d)
    decreases fuel, 0, 0
  {
    if filename in env.templates {
      OnceSettled(env, s, fuel - 1, more - 1, MAIN.name, env.templates[filename], d, true);
    }
  }

  lemma {:induction false} IncludesSettled(env: Env, s: Store, fuel: nat, more: nat, ms: seq<Modifier>,
                                           indent: string, ds: seq<nat>)
    requires fuel <= more && forall i :: 0 <= i < |ds| ==> In(s, ds[i])
    requires IncludeEach(env, s, fuel, ms, indent, ds).Some?
    ensures IncludeEach(env, s, more, ms, indent, ds) == IncludeEach(env, s, fuel, ms, indent, ds)
    decreases fuel, 0, 2, ds
  {
    if ds != [] {
      IncludeSettled(env, s, fuel, more, ms, indent, ds[0]);
      IncludesSettled(env, s, fuel, more, ms, indent, ds[1..]);
    }
  }

  // ----- without template-global sections -----

  /** The dictionary an included template, or the whole page, was given. */
  function Root(s: Store, d: nat): (r: nat)
    requires In(s, d)
    ensures r <= d
    decreases d
  {
    assert DictOk(s, d);
    if s[d].parent.Some? then Root(s, s[d].parent.value) else d
  }

  ghost predicate NoGlobalSections(s: Store, o: nat) {
    o < |s| && (s[o].global.Some? && s[o].global.value < |s| ==> s[s[o].global.value].sections == map[])
  }

  lemma {:induction false} SectionsStayBelow(s: Store, d: nat, name: string)
    requires In(s, d) && SectionHolder(s, d, name).Some?
    ensures forall c :: c in s[SectionHolder(s, d, name).value].sections[name] ==>
      In(s, c) && Root(s, c) == Root(s, d) && s[c].owner == s[d].owner
    decreases d
  {
    assert DictOk(s, d);
    if name in s[d].sections {
      assert Children(s, d, s[d].sections[name], Some(d));
    } else {
      SectionsStayBelow(s, s[d].parent.value, name);
    }
  }

  lemma {:induction false} IncludesAreDeeper(s: Store, d: nat, name: string)
    requires In(s, d) && IncludeHolder(s, d, name).Some?
    ensures forall c :: c in s[IncludeHolder(s, d, name).value].includes[name] ==>
      In(s, c) && Root(s, c) > Root(s, d) && s[c].owner == s[d].owner
    decreases d
  {
    assert DictOk(s, d);
    if name in s[d].includes {
      assert Children(s, d, s[d].includes[name], None);
    } else {
      IncludesAreDeeper(s, s[d].parent.value, name);
    }
  }

  /** Includes under the same top-level dictionary as d, all above the root that d lies under. */
  ghost predicate AllDeeper(s: Store, d: nat, cs: set<nat>)
    requires In(s, d)
  {
    forall c :: c in cs ==> In(s, c) && s[c].owner == s[d].owner && Root(s, c) > Root(s, d)
  }

  lemma SectionIsBelow(s: Store, d: nat, name: string)
    requires In(s, d) && NoGlobalSections(s, s[d].owner) && FindSection(s, d, name).Some?
    ensures forall c :: c in FindSection(s, d, name).value ==>
      In(s, c) && Root(s, c) == Root(s, d) && s[c].owner == s[d].owner
  {
    assert DictOk(s, d);
    SectionsStayBelow(s, d, name);
  }

  lemma {:induction false} NodeGoesDeeper(s: Store, n: Node, d: nat)
    requires In(s, d) && NoGlobalSections(s, s[d].owner)
    ensures AllDeeper(s, d, NodeIncludes(s, n, d))
    decreases n
  {
    hide AllIncludes, Root, StoreOk, NoGlobalSections;
    match n
    case SectionNode(name, children) =>
      if FindSection(s, d, name).Some? {
        var ds := FindSection(s, d, name).value;
        SectionsAreIn(s, d, name);
        SectionIsBelow(s, d, name);
        if ds == [] {
          OnceGoesDeeper(s, name, children, d, true);
        } else {
          assert forall i :: 0 <= i < |ds| ==> ds[i] in ds;
          EachGoesDeeper(s, name, children, d, ds);
        }
      }
    case IncludeNode(name, _, _) =>
      if FindInclude(s, d, name).Some? {
        IncludesAreDeeper(s, d, name);
      }
    case _ =>
  }

  lemma {:induction false} AllGoDeeper(s: Store, nodes: seq<Node>, sep: Option<nat>, d: nat, last: bool)
    requires In(s, d) && NoGlobalSections(s, s[d].owner)
    requires sep.Some? ==> sep.value < |nodes| && nodes[sep.value].SectionNode?
    ensures AllDeeper(s, d, AllIncludes(s, nodes, sep, d, last))
    decreases nodes, 0
  {
    hide Root, StoreOk, NoGlobalSections, NodeIncludes, OnceIncludes;
    if nodes != [] {
      NodeGoesDeeper(s, nodes[0], d);
      if sep == Some(0) && !last {
        OnceGoesDeeper(s, nodes[0].name, nodes[0].children, d, true);
      }
      AllGoDeeper(s, nodes[1..], if sep.Some? && sep.value > 0 then Some(sep.value - 1) else None, d, last);
    }
  }

  lemma {:induction false} OnceGoesDeeper(s: Store, name: string, nodes: seq<Node>, d: nat, last: bool)
    requires In(s, d) && NoGlobalSections(s, s[d].owner)
    ensures AllDeeper(s, d, OnceIncludes(s, name, nodes, d, last))
    decreases nodes, 1
  {
    AllGoDeeper(s, nodes, Separator(name, nodes), d, last);
  }

  lemma {:induction false} EachGoesDeeper(s: Store, name: string, nodes: seq<Node>, d: nat, ds: seq<nat>)
    requires In(s, d) && NoGlobalSections(s, s[d].owner)
    requires forall i :: 0 <= i < |ds| ==> In(s, ds[i]) && Root(s, ds[i]) == Root(s, d) && s[ds[i]].owner == s[d].owner
    ensures AllDeeper(s, d, EachIncludes(s, name, nodes, ds))
    decreases nodes, 2, ds
  {
    hide Root, StoreOk, NoGlobalSections, OnceIncludes;
    if ds != [] {
      OnceGoesDeeper(s, name, nodes, ds[0], |ds| == 1);
      EachGoesDeeper(s, name, nodes, d, ds[1..]);
    }
  }

  /** Every include on a path lies above the one before it. */
  lemma {:induction false} PathClimbs(env: Env, s: Store, filename: string, d: nat, path: seq<nat>, j: nat)
    requires Path(env, s, filename, d, path) && j < |path| && NoGlobalSections(s, s[d].owner)
    ensures In(s, path[j]) && Root(s, path[j]) > Root(s, d) + j
    decreases j
  {
    hide Root, StoreOk, NoGlobalSections;
    OnceGoesDeeper(s, MAIN.name, env.templates[filename], d, true);
    if j > 0 {
      PathClimbs(env, s, Filename(s, path[0]), path[0], path[1..], j - 1);
    }
  }

  /**
   Without template-global sections expansion ends for every set of templates, however they
   include each other, with includes no deeper than there are dictionaries above the first root.
   */
  lemma ExpansionEnds(env: Env, s: Store, fuel: nat, filename: string, d: nat)
    requires In(s, d) && NoGlobalSections(s, s[d].owner) && fuel > 0 && Root(s, d) + fuel >= |s|
    ensures ExpandTemplate(env, s, fuel, filename, d).Some? && !Loops(env, s, filename, d)
  {
    hide ExpandTemplate, Called;
    if ExpandTemplate(env, s, fuel, filename, d).None? {
      var path := PathToTheEnd(env, s, fuel, filename, d);
      PathClimbs(env, s, filename, d, path, fuel - 1);
      assert false;
    }
    if Loops(env, s, filename, d) {
      LoopsForever(env, s, fuel, filename, d);
      assert false;
    }
  }

  // ----- a template-global section can keep it going -----

  /** G is shown template-globally, and the page includes T under the name I. */
  const LOOPING: Store := [
    Dict(map[], map[], map["I" := [3]], None, 0, Some(1), Some("T")),
    Dict(map[], map["G" := [2]], map[], Some(0), 0, None, None),
    EmptyDict(Some(1), 0),
    EmptyDict(None, 0).(filename := Some("T"))]

  const INCLUDE_I := IncludeNode("I", [], "")

  /** {{#G}}{{>I}}{{/G}} */
  const T_TREE := [SectionNode("G", [INCLUDE_I])]

  lemma LoopingIsOk()
    ensures StoreOk(LOOPING)
  {
    forall d | 0 <= d < |LOOPING| ensures DictOk(LOOPING, d) {
      assert d == 0 || d == 1 || d == 2 || d == 3;
    }
  }

  lemma LoopingCalls(env: Env, d: nat)
    requires "T" in env.templates && env.templates["T"] == T_TREE && (d == 3 || d == 0)
    ensures In(LOOPING, d) && 3 in Called(env, LOOPING, "T", d)
  {
    var s := LOOPING;
    LoopingIsOk();
    assert SectionHolder(s, d, "G") == None && FindSection(s, d, "G") == Some([2]);
    assert IncludeHolder(s, 2, "I") == Some(0) && FindInclude(s, 2, "I") == Some([3]);
    assert 3 in NodeIncludes(s, INCLUDE_I, 2);
    assert 3 in AllIncludes(s, [INCLUDE_I], Separator("G", [INCLUDE_I]), 2, true);
    assert 3 in EachIncludes(s, "G", [INCLUDE_I], [2]);
    assert 3 in NodeIncludes(s, T_TREE[0], d);
    assert 3 in AllIncludes(s, T_TREE, Separator(MAIN.name, T_TREE), d, true);
  }

  /** For instance: this template never comes to an end, however deep inclusion may go. */
  lemma GlobalSectionLoops(env: Env, fuel: nat)
    requires "T" in env.templates && env.templates["T"] == T_TREE
    ensures StoreOk(LOOPING) && Loops(env, LOOPING, "T", 0) && ExpandTemplate(env, LOOPING, fuel, "T", 0) == None
  {
    hide Called;
    LoopingCalls(env, 0);
    LoopingCalls(env, 3);
    assert Path(env, LOOPING, "T", 3, []) && Path(env, LOOPING, "T", 3, [3]) by {
      assert [3][1..] == [];
    }
    assert Path(env, LOOPING, "T", 0, [3, 3]) by {
      assert [3, 3][1..] == [3];
    }
    assert Repeats([3, 3]) by {
      assert [3, 3][0] == [3, 3][1];
    }
    LoopsForever(env, LOOPING, fuel, "T", 0);
  }
}

module ExpansionLaws {
  // Like dictionaries give the same output with every template, so that a copy expands as its
  // original did.

  import opened Wrappers
  import opened TemplateTokens
  import opened TemplateTrees
  import opened Dictionaries
  import opened DictionaryLikeness
  import opened DictionaryChanges
  import opened Expansion

  // ----- like dictionaries -----

  lemma {:induction false} NodeAlike(env: Env, s: Store, x: nat, t: Store, y: nat, fuel: nat, n: Node)
    requires Alike(s, x, t, y)
    ensures ExpandNode(env, s, fuel, n, x) == ExpandNode(env, t, fuel, n, y)
    decreases fuel, 1, n
  {
    match n
    case TextNode(_) =>
    case VariableNode(name, _) => SameValue(s, x, t, y, env.globals, name);
    case PragmaNode(_) =>
    case SectionNode(name, children) =>
      LikeSections(s, x, t, y, name);
      if FindSection(s, x, name).Some? {
        var ds, es := FindSection(s, x, name).value, FindSection(t, y, name).value;
        if ds == [] {
          OnceAlike(env, s, x, t, y, fuel, name, children, true);
        } else {
          EachAlike(env, s, ds, t, es, fuel, name, children);
        }
      }
    case IncludeNode(name, ms, indent) =>
      LikeIncludes(s, x, t, y, name);
      if FindInclude(s, x, name).Some? {
        IncludesAlike(env, s, FindInclude(s, x, name).value, t, FindInclude(t, y, name).value, fuel, ms, indent);
      }
  }

  lemma {:induction false} AllNodesAlike(env: Env, s: Store, x: nat, t: Store, y: nat, fuel: nat,
                                         nodes: seq<Node>, sep: Option<nat>, last: bool)
    requires Alike(s, x, t, y) && (sep.Some? ==> sep.value < |nodes| && nodes[sep.value].SectionNode?)
    ensures ExpandAll(env, s, fuel, nodes, sep, x, last) == ExpandAll(env, t, fuel, nodes, sep, y, last)
    decreases fuel, 1, nodes, 0
  {
    if nodes != [] {
      NodeAlike(env, s, x, t, y, fuel, nodes[0]);
      if sep == Some(0) && !last {
        OnceAlike(env, s, x, t, y, fuel, nodes[0].name, nodes[0].children, true);
      }
      var next := if sep.Some? && sep.value > 0 then Some(sep.value - 1) else None;
      AllNodesAlike(env, s, x, t, y, fuel, nodes[1..], next, last);
    }
  }

  lemma {:induction false} OnceAlike(env: Env, s: Store, x: nat, t: Store, y: nat, fuel: nat,
                                     name: string, nodes: seq<Node>, last: bool)
    requires Alike(s, x, t, y)
    ensures ExpandOnce(env, s, fuel, name, nodes, x, last) == ExpandOnce(env, t, fuel, name, nodes, y, last)
    decreases fuel, 1, nodes, 1
  {
    AllNodesAlike(env, s, x, t, y, fuel, nodes, Separator(name, nodes), last);
  }

  lemma {:induction false} EachAlike(env: Env, s: Store, ds: seq<nat>, t: Store, es: seq<nat>, fuel: nat,
                                     name: string, nodes: seq<Node>)
    requires AllAlike(s, ds, t, es)
    ensures ExpandEach(env, s, fuel, name, nodes, ds) == ExpandEach(env, t, fuel, name, nodes, es)
    decreases fuel, 1, nodes, 2, ds
  {
    if ds != [] {
      OnceAlike(env, s, ds[0], t, es[0], fuel, name, nodes, |ds| == 1);
      EachAlike(env, s, ds[1..], t, es[1..], fuel, name, nodes);
    }
  }

  lemma {:induction false} IncludeAlike(env: Env, s: Store, x: nat, t: Store, y: nat, fuel: nat, ms: seq<Modifier>,
                                        indent: string)
    requires Alike(s, x, t, y)
    ensures IncludeOnce(env, s, fuel, ms, indent, x) == IncludeOnce(env, t, fuel, ms, indent, y)
    decreases fuel, 0, 1
  {
    var filename := Filename(s, x);
    if filename in env.templates && fuel > 0 {
      OnceAlike(env, s, x, t, y, fuel - 1, MAIN.name, env.templates[filename], true);
    }
  }

  lemma {:induction false} IncludesAlike(env: Env, s: Store, ds: seq<nat>, t: Store, es: seq<nat>, fuel: nat,
                                         ms: seq<Modifier>, indent: string)
    requires AllAlike(s, ds, t, es)
    ensures IncludeEach(env, s, fuel, ms, indent, ds) == IncludeEach(env, t, fuel, ms, indent, es)
    decreases fuel, 0, 2, ds
  {
    if ds != [] {
      IncludeAlike(env, s, ds[0], t, es[0], fuel, ms, indent);
      IncludesAlike(env, s, ds[1..], t, es[1..], fuel, ms, indent);
    }
  }

  /** Every template comes out the same with either of two like dictionaries. */
  lemma TemplateAlike(env: Env, s: Store, x: nat, t: Store, y: nat, fuel: nat, filename: string)
    requires Alike(s, x, t, y)
    ensures ExpandTemplate(env, s, fuel, filename, x) == ExpandTemplate(env, t, fuel, filename, y)
  {
    if filename in env.templates && fuel > 0 {
      OnceAlike(env, s, x, t, y, fuel - 1, MAIN.name, env.templates[filename], true);
    }
  }

  /** Answers at the end of the same path from two like dictionaries. */
  lemma AnswersAlike(s: Store, d: nat, t: Store, c: nat, path: seq<Step>, globals: map<string, string>, name: string)
    requires Alike(s, d, t, c)
    ensures Follow(s, d, path).Some? <==> Follow(t, c, path).Some?
    ensures Follow(s, d, path).Some? ==>
      var x, y := Follow(s, d, path).value, Follow(t, c, path).value;
      && GetValue(s, globals, x, name) == GetValue(t, globals, y, name)
      && LikeResults(s, FindSection(s, x, name), t, FindSection(t, y, name))
      && LikeResults(s, FindInclude(s, x, name), t, FindInclude(t, y, name))
      && Filename(s, x) == Filename(t, y)
  {
    FollowAlike(s, d, t, c, path);
    if Follow(s, d, path).Some? {
      var x, y := Follow(s, d, path).value, Follow(t, c, path).value;
      SameValue(s, x, t, y, globals, name);
      LikeSections(s, x, t, y, name);
      LikeIncludes(s, x, t, y, name);
    }
  }

  /** Likeness carries on from store to store. */
  lemma {:induction false} AlikeOn(s: Store, x: nat, t: Store, y: nat, u: Store, z: nat)
    requires Alike(s, x, t, y) && Alike(t, y, u, z)
    ensures Alike(s, x, u, z)
    decreases x
  {
    if s[x].parent.Some? {
      AlikeOn(s, s[x].parent.value, t, t[y].parent.value, u, u[z].parent.value);
    }
  }

  /**
   A copy c of d goes on answering and expanding as d did when it was copied, whatever calls
   are made on d, or on any dictionary that is not the copy's, since.
   */
  lemma CopyKeepsMeaning(s: Store, d: nat, t: Store, c: nat, o: nat, cs: seq<Call>,
                         env: Env, fuel: nat, filename: string)
    requires Alike(s, d, t, c) && t[c].owner != o && CallsOn(t, o, cs)
    ensures var u := ApplyAll(t, o, cs);
      && Alike(s, d, u, c)
      && ExpandTemplate(env, u, fuel, filename, c) == ExpandTemplate(env, s, fuel, filename, d)
  {
    CallsElsewhereAreNotNoticed(t, o, cs, c);
    AlikeOn(s, d, t, c, ApplyAll(t, o, cs), c);
    TemplateAlike(env, s, d, ApplyAll(t, o, cs), c, fuel, filename);
  }
}

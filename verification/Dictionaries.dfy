/**
 Template dictionaries (template_dictionary.cc) and the lookups expansion makes in them.

 All dictionaries live in one store, and a pointer to a dictionary is its position there.
 Names stand for their ids, which are taken to be injective.
 */
module Dictionaries {
  import opened Wrappers

  /**
   owner is the top-level dictionary that has the template-global one, if there is one yet;
   parent is where lookups go on, absent at the top of a template.
   */
  datatype Dict = Dict(
    vars: map<string, string>,
    sections: map<string, seq<nat>>,
    includes: map<string, seq<nat>>,
    parent: Option<nat>,
    owner: nat,
    global: Option<nat>,
    filename: Option<string>)

  type Store = seq<Dict>

  function EmptyDict(parent: Option<nat>, owner: nat): Dict {
    Dict(map[], map[], map[], parent, owner, None, None)
  }

  /** The dictionaries ds of the section or include of a name in d. */
  ghost predicate Children(s: Store, d: nat, ds: seq<nat>, parent: Option<nat>)
    requires d < |s|
  {
    ds != [] && forall i :: 0 <= i < |ds| ==>
      d < ds[i] < |s| && s[ds[i]].parent == parent && s[ds[i]].owner == s[d].owner
  }

  ghost predicate GlobalOk(s: Store, d: nat, g: nat) {
    d < g < |s| && s[g].parent == Some(d) && s[g].owner == d
  }

  /** Dictionaries come after the ones that hold them; an include does not see past its template. */
  ghost predicate DictOk(s: Store, d: nat)
    requires d < |s|
  {
    && s[d].owner <= d && s[s[d].owner].owner == s[d].owner
    && (s[d].owner == d ==> s[d].parent == None)
    && (s[d].parent.Some? ==> s[d].parent.value < d && s[s[d].parent.value].owner == s[d].owner)
    && (s[d].global.Some? ==> s[d].owner == d && GlobalOk(s, d, s[d].global.value))
    && (forall name :: name in s[d].sections ==> Children(s, d, s[d].sections[name], Some(d)))
    && (forall name :: name in s[d].includes ==> Children(s, d, s[d].includes[name], None))
  }

  ghost predicate StoreOk(s: Store) {
    forall d :: 0 <= d < |s| ==> DictOk(s, d)
  }

  /** The dictionary d of a store in order. */
  ghost predicate In(s: Store, d: nat) {
    d < |s| && StoreOk(s)
  }

  // ----- lookups -----

  function Global(s: Store, d: nat): (g: Option<nat>)
    requires In(s, d)
    ensures g.Some? ==> g.value < |s|
  {
    assert DictOk(s, d);
    assert DictOk(s, s[d].owner);
    s[s[d].owner].global
  }

  /** Along the parents of d. */
  function FindVariable(s: Store, d: nat, name: string): Option<string>
    requires In(s, d)
    decreases d
  {
    assert DictOk(s, d);
    if name in s[d].vars then Some(s[d].vars[name])
    else if s[d].parent.Some? then FindVariable(s, s[d].parent.value, name)
    else None
  }

  function GetValue(s: Store, globals: map<string, string>, d: nat, name: string): string
    requires In(s, d)
  {
    match FindVariable(s, d, name)
    case Some(v) => v
    case None =>
      var g := Global(s, d);
      if g.Some? && name in s[g.value].vars then s[g.value].vars[name]
      else if name in globals then globals[name]
      else ""
  }

  /** d, its parents or its template-global dictionary have the variable, so no global value shows. */
  ghost predicate HasValue(s: Store, d: nat, name: string)
    requires In(s, d)
  {
    FindVariable(s, d, name).Some? || (Global(s, d).Some? && name in s[Global(s, d).value].vars)
  }

  /** The dictionary along the parents of d that has the section. */
  function SectionHolder(s: Store, d: nat, name: string): (h: Option<nat>)
    requires In(s, d)
    ensures h.Some? ==> h.value < |s| && name in s[h.value].sections
    decreases d
  {
    assert DictOk(s, d);
    if name in s[d].sections then Some(d)
    else if s[d].parent.Some? then SectionHolder(s, s[d].parent.value, name)
    else None
  }

  /** CreateSectionIterator: the template-global dictionary comes last. None is a hidden section. */
  function FindSection(s: Store, d: nat, name: string): Option<seq<nat>>
    requires In(s, d)
  {
    match SectionHolder(s, d, name)
    case Some(h) => Some(s[h].sections[name])
    case None =>
      var g := Global(s, d);
      if g.Some? && name in s[g.value].sections then Some(s[g.value].sections[name]) else None
  }

  predicate IsHiddenSection(s: Store, d: nat, name: string)
    requires In(s, d)
  {
    FindSection(s, d, name).None?
  }

  function IncludeHolder(s: Store, d: nat, name: string): (h: Option<nat>)
    requires In(s, d)
    ensures h.Some? ==> h.value < |s| && name in s[h.value].includes
    decreases d
  {
    assert DictOk(s, d);
    if name in s[d].includes then Some(d)
    else if s[d].parent.Some? then IncludeHolder(s, s[d].parent.value, name)
    else None
  }

  /** CreateTemplateIterator; template-global includes are not consulted. */
  function FindInclude(s: Store, d: nat, name: string): Option<seq<nat>>
    requires In(s, d)
  {
    match IncludeHolder(s, d, name)
    case Some(h) => Some(s[h].includes[name])
    case None => None
  }

  predicate IsHiddenTemplate(s: Store, d: nat, name: string)
    requires In(s, d)
  {
    FindInclude(s, d, name).None?
  }

  /** A missing file name reads as an empty one. */
  function Filename(s: Store, d: nat): string
    requires d < |s|
  {
    if s[d].filename.Some? then s[d].filename.value else ""
  }

  // ----- what a dictionary holds -----

  /** A dictionary with all it holds, apart from where it is. */
  datatype Tree = Tree(
    vars: map<string, string>,
    sections: map<string, seq<Tree>>,
    includes: map<string, seq<Tree>>,
    global: Option<Tree>,
    filename: string)

  ghost function TreeOf(s: Store, d: nat): Tree
    requires In(s, d)
    decreases |s| - d, 2
  {
    assert DictOk(s, d);
    Tree(
      s[d].vars,
      TreeMap(s, d, s[d].sections, Some(d)),
      TreeMap(s, d, s[d].includes, None),
      if s[d].global.Some? then Some(TreeOf(s, s[d].global.value)) else None,
      Filename(s, d))
  }

  ghost function TreeMap(s: Store, d: nat, m: map<string, seq<nat>>, parent: Option<nat>): (r: map<string, seq<Tree>>)
    requires In(s, d) && forall name :: name in m ==> Children(s, d, m[name], parent)
    decreases |s| - d, 1
  {
    map name | name in m :: TreesOf(s, d, m[name], parent)
  }

  ghost function TreesOf(s: Store, d: nat, ds: seq<nat>, parent: Option<nat>): (ts: seq<Tree>)
    requires In(s, d) && Children(s, d, ds, parent)
    ensures |ts| == |ds| && forall i :: 0 <= i < |ds| ==> In(s, ds[i]) && ts[i] == TreeOf(s, ds[i])
    decreases |s| - d, 0
  {
    seq(|ds|, i requires 0 <= i < |ds| => TreeOf(s, ds[i]))
  }

  /** The lists hold the same, dictionary by dictionary. */
  ghost predicate SameTrees(s: Store, ds: seq<nat>, t: Store, es: seq<nat>) {
    |ds| == |es| && forall i :: 0 <= i < |ds| ==> In(s, ds[i]) && In(t, es[i]) && TreeOf(s, ds[i]) == TreeOf(t, es[i])
  }

  ghost predicate SameMaps(s: Store, m: map<string, seq<nat>>, t: Store, n: map<string, seq<nat>>) {
    m.Keys == n.Keys && forall name :: name in m ==> SameTrees(s, m[name], t, n[name])
  }

  ghost predicate SameGlobals(s: Store, g: Option<nat>, t: Store, h: Option<nat>) {
    match (g, h)
    case (None, None) => true
    case (Some(a), Some(b)) => In(s, a) && In(t, b) && TreeOf(s, a) == TreeOf(t, b)
    case _ => false
  }

  /** The two hold the same, one level spelled out. */
  ghost predicate SameDict(s: Store, d: nat, t: Store, e: nat)
    requires d < |s| && e < |t|
  {
    && s[d].vars == t[e].vars && Filename(s, d) == Filename(t, e)
    && SameMaps(s, s[d].sections, t, t[e].sections)
    && SameMaps(s, s[d].includes, t, t[e].includes)
    && SameGlobals(s, s[d].global, t, t[e].global)
  }

  lemma SameTreeMaps(s: Store, d: nat, m: map<string, seq<nat>>, p: Option<nat>,
                     t: Store, e: nat, n: map<string, seq<nat>>, q: Option<nat>)
    requires In(s, d) && forall name :: name in m ==> Children(s, d, m[name], p)
    requires In(t, e) && forall name :: name in n ==> Children(t, e, n[name], q)
    ensures TreeMap(s, d, m, p) == TreeMap(t, e, n, q) <==> SameMaps(s, m, t, n)
  {
    var a, b := TreeMap(s, d, m, p), TreeMap(t, e, n, q);
    assert a.Keys == m.Keys && b.Keys == n.Keys;
    forall name | name in m && name in n ensures a[name] == b[name] <==> SameTrees(s, m[name], t, n[name]) {
      SameTreesOf(s, d, m[name], p, t, e, n[name], q);
    }
  }

  lemma SameTreesOf(s: Store, d: nat, ds: seq<nat>, p: Option<nat>, t: Store, e: nat, es: seq<nat>, q: Option<nat>)
    requires In(s, d) && Children(s, d, ds, p) && In(t, e) && Children(t, e, es, q)
    ensures TreesOf(s, d, ds, p) == TreesOf(t, e, es, q) <==> SameTrees(s, ds, t, es)
  {
    var a, b := TreesOf(s, d, ds, p), TreesOf(t, e, es, q);
    if a == b {
      forall i | 0 <= i < |ds| ensures TreeOf(s, ds[i]) == TreeOf(t, es[i]) {
        assert a[i] == b[i];
      }
    }
  }

  lemma SameTreeIff(s: Store, d: nat, t: Store, e: nat)
    requires In(s, d) && In(t, e)
    ensures TreeOf(s, d) == TreeOf(t, e) <==> SameDict(s, d, t, e)
  {
    assert DictOk(s, d) && DictOk(t, e);
    SameTreeMaps(s, d, s[d].sections, Some(d), t, e, t[e].sections, Some(e));
    SameTreeMaps(s, d, s[d].includes, None, t, e, t[e].includes, None);
  }
}

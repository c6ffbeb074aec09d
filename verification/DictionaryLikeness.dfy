/**
 When two dictionaries, perhaps of different stores, answer everything alike: they hold the
 same, and so do their parents and the top-level dictionaries they belong to.
 */
module DictionaryLikeness {
  import opened Wrappers
  import opened Dictionaries

  ghost predicate Alike(s: Store, x: nat, t: Store, y: nat)
    decreases x
  {
    && In(s, x) && In(t, y) && DictOk(s, x) && DictOk(t, y)
    && TreeOf(s, x) == TreeOf(t, y)
    && TreeOf(s, s[x].owner) == TreeOf(t, t[y].owner)
    && match (s[x].parent, t[y].parent)
       case (None, None) => true
       case (Some(p), Some(q)) => Alike(s, p, t, q)
       case _ => false
  }

  ghost predicate AllAlike(s: Store, ds: seq<nat>, t: Store, es: seq<nat>) {
    |ds| == |es| && forall i :: 0 <= i < |ds| ==> Alike(s, ds[i], t, es[i])
  }

  ghost predicate LikeResults(s: Store, ds: Option<seq<nat>>, t: Store, es: Option<seq<nat>>) {
    match (ds, es)
    case (None, None) => true
    case (Some(a), Some(b)) => AllAlike(s, a, t, b)
    case _ => false
  }

  /** What d holds is where the dictionaries of its owner are, from d onwards. */
  ghost predicate SameFrom(s: Store, t: Store, d: nat)
    requires d < |s|
  {
    |s| <= |t| && forall i :: d <= i < |s| && s[i].owner == s[d].owner ==> t[i] == s[i]
  }

  lemma {:induction false} TreeFrame(s: Store, t: Store, d: nat)
    requires In(s, d) && StoreOk(t) && SameFrom(s, t, d)
    ensures In(t, d) && TreeOf(s, d) == TreeOf(t, d)
    decreases |s| - d
  {
    assert DictOk(s, d);
    forall name | name in s[d].sections ensures SameTrees(s, s[d].sections[name], t, s[d].sections[name]) {
      TreesFrame(s, t, d, s[d].sections[name], Some(d));
    }
    forall name | name in s[d].includes ensures SameTrees(s, s[d].includes[name], t, s[d].includes[name]) {
      TreesFrame(s, t, d, s[d].includes[name], None);
    }
    if s[d].global.Some? {
      TreeFrame(s, t, s[d].global.value);
    }
    SameTreeIff(s, d, t, d);
  }

  lemma {:induction false} TreesFrame(s: Store, t: Store, d: nat, ds: seq<nat>, parent: Option<nat>)
    requires In(s, d) && StoreOk(t) && SameFrom(s, t, d) && Children(s, d, ds, parent)
    ensures SameTrees(s, ds, t, ds)
    decreases |s| - d, 0
  {
    forall i | 0 <= i < |ds| ensures In(s, ds[i]) && In(t, ds[i]) && TreeOf(s, ds[i]) == TreeOf(t, ds[i]) {
      TreeFrame(s, t, ds[i]);
    }
  }

  /** The dictionaries of the owner of x are the same in both stores. */
  ghost predicate SameOwned(s: Store, t: Store, o: nat) {
    |s| <= |t| && forall i :: 0 <= i < |s| && s[i].owner == o ==> t[i] == s[i]
  }

  /** Changes to the dictionaries of others are not noticed. */
  lemma {:induction false} UntouchedIsAlike(s: Store, t: Store, x: nat)
    requires In(s, x) && StoreOk(t) && SameOwned(s, t, s[x].owner)
    ensures Alike(s, x, t, x)
    decreases x
  {
    assert DictOk(s, x) && DictOk(t, x);
    TreeFrame(s, t, x);
    TreeFrame(s, t, s[x].owner);
    if s[x].parent.Some? {
      UntouchedIsAlike(s, t, s[x].parent.value);
    }
  }

  lemma AlikeSections(s: Store, x: nat, t: Store, y: nat, name: string)
    requires Alike(s, x, t, y)
    ensures name in s[x].sections <==> name in t[y].sections
    ensures name in s[x].sections ==> AllAlike(s, s[x].sections[name], t, t[y].sections[name])
  {
    SameTreeIff(s, x, t, y);
    if name in s[x].sections {
      var ds, es := s[x].sections[name], t[y].sections[name];
      assert SameTrees(s, ds, t, es) && Children(s, x, ds, Some(x)) && Children(t, y, es, Some(y));
      forall i | 0 <= i < |ds| ensures Alike(s, ds[i], t, es[i]) {
        assert DictOk(s, ds[i]) && DictOk(t, es[i]);
      }
    }
  }

  lemma AlikeIncludes(s: Store, x: nat, t: Store, y: nat, name: string)
    requires Alike(s, x, t, y)
    ensures name in s[x].includes <==> name in t[y].includes
    ensures name in s[x].includes ==> AllAlike(s, s[x].includes[name], t, t[y].includes[name])
  {
    SameTreeIff(s, x, t, y);
    if name in s[x].includes {
      var ds, es := s[x].includes[name], t[y].includes[name];
      assert SameTrees(s, ds, t, es) && Children(s, x, ds, None) && Children(t, y, es, None);
      forall i | 0 <= i < |ds| ensures Alike(s, ds[i], t, es[i]) {
        assert DictOk(s, ds[i]) && DictOk(t, es[i]);
      }
    }
  }

  lemma AlikeGlobals(s: Store, x: nat, t: Store, y: nat)
    requires Alike(s, x, t, y)
    ensures match (Global(s, x), Global(t, y))
      case (None, None) => true
      case (Some(g), Some(h)) => Alike(s, g, t, h)
      case _ => false
  {
    var o, u := s[x].owner, t[y].owner;
    assert DictOk(s, o) && DictOk(t, u);
    SameTreeIff(s, o, t, u);
    if Global(s, x).Some? {
      assert DictOk(s, Global(s, x).value) && DictOk(t, Global(t, y).value);
      assert Alike(s, o, t, u);
    }
  }

  lemma {:induction false} AlikeVariable(s: Store, x: nat, t: Store, y: nat, name: string)
    requires Alike(s, x, t, y)
    ensures FindVariable(s, x, name) == FindVariable(t, y, name)
    decreases x
  {
    if name !in s[x].vars && s[x].parent.Some? {
      AlikeVariable(s, s[x].parent.value, t, t[y].parent.value, name);
    }
  }

  lemma SameValue(s: Store, x: nat, t: Store, y: nat, globals: map<string, string>, name: string)
    requires Alike(s, x, t, y)
    ensures GetValue(s, globals, x, name) == GetValue(t, globals, y, name)
  {
    AlikeVariable(s, x, t, y, name);
    AlikeGlobals(s, x, t, y);
  }

  lemma {:induction false} AlikeSectionHolder(s: Store, x: nat, t: Store, y: nat, name: string)
    requires Alike(s, x, t, y)
    ensures match (SectionHolder(s, x, name), SectionHolder(t, y, name))
      case (None, None) => true
      case (Some(g), Some(h)) => AllAlike(s, s[g].sections[name], t, t[h].sections[name])
      case _ => false
    decreases x
  {
    AlikeSections(s, x, t, y, name);
    if name !in s[x].sections && s[x].parent.Some? {
      AlikeSectionHolder(s, s[x].parent.value, t, t[y].parent.value, name);
    }
  }

  lemma LikeSections(s: Store, x: nat, t: Store, y: nat, name: string)
    requires Alike(s, x, t, y)
    ensures LikeResults(s, FindSection(s, x, name), t, FindSection(t, y, name))
  {
    AlikeSectionHolder(s, x, t, y, name);
    AlikeGlobals(s, x, t, y);
    if Global(s, x).Some? {
      AlikeSections(s, Global(s, x).value, t, Global(t, y).value, name);
    }
  }

  lemma {:induction false} LikeIncludes(s: Store, x: nat, t: Store, y: nat, name: string)
    requires Alike(s, x, t, y)
    ensures LikeResults(s, FindInclude(s, x, name), t, FindInclude(t, y, name))
    decreases x
  {
    AlikeIncludes(s, x, t, y, name);
    if name !in s[x].includes && s[x].parent.Some? {
      LikeIncludes(s, s[x].parent.value, t, t[y].parent.value, name);
    }
  }

  /** Two top-level dictionaries that hold the same are alike. */
  lemma RootsAlike(s: Store, x: nat, t: Store, y: nat)
    requires In(s, x) && In(t, y) && s[x].owner == x && t[y].owner == y && TreeOf(s, x) == TreeOf(t, y)
    ensures Alike(s, x, t, y)
  {
    assert DictOk(s, x) && DictOk(t, y);
  }

  /** A way down from a dictionary. */
  datatype Step = IntoSection(name: string, i: nat) | IntoInclude(name: string, i: nat)

  function Follow(s: Store, d: nat, path: seq<Step>): (r: Option<nat>)
    requires In(s, d)
    ensures r.Some? ==> In(s, r.value)
    decreases path
  {
    assert DictOk(s, d);
    if path == [] then Some(d)
    else
      var m := if path[0].IntoSection? then s[d].sections else s[d].includes;
      if path[0].name in m && path[0].i < |m[path[0].name]| then
        assert Children(s, d, m[path[0].name], if path[0].IntoSection? then Some(d) else None);
        Follow(s, m[path[0].name][path[0].i], path[1..])
      else None
  }

  /** The same path leads to like places. */
  lemma {:induction false} FollowAlike(s: Store, x: nat, t: Store, y: nat, path: seq<Step>)
    requires Alike(s, x, t, y)
    ensures match (Follow(s, x, path), Follow(t, y, path))
      case (None, None) => true
      case (Some(a), Some(b)) => Alike(s, a, t, b)
      case _ => false
    decreases path
  {
    if path != [] {
      var step := path[0];
      AlikeSections(s, x, t, y, step.name);
      AlikeIncludes(s, x, t, y, step.name);
      var m := if step.IntoSection? then s[x].sections else s[x].includes;
      var n := if step.IntoSection? then t[y].sections else t[y].includes;
      if step.name in m && step.i < |m[step.name]| {
        FollowAlike(s, m[step.name][step.i], t, n[step.name][step.i], path[1..]);
      }
    }
  }
}

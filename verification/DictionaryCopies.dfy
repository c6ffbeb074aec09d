/** A copy in the making: what stays true of its finished parts as it grows. */
module DictionaryCopies {
  import opened Wrappers
  import opened Dictionaries
  import opened DictionaryLikeness

  /** b is being filled: the store is orig, then others, then b and what it holds. */
  ghost predicate Building(orig: Store, s: Store, b: nat) {
    StoreOk(orig) && StoreOk(s) && |orig| <= b < |s| && orig <= s
  }

  /** From s to t only b has changed, in what it holds, and more dictionaries have come. */
  ghost predicate Grown(s: Store, t: Store, b: nat) {
    && b < |s| <= |t| && StoreOk(t)
    && (forall i :: 0 <= i < |s| && i != b ==> t[i] == s[i])
    && t[b].owner == s[b].owner && t[b].parent == s[b].parent
  }

  lemma TreesKept(orig: Store, ds: seq<nat>, s: Store, es: seq<nat>, t: Store, b: nat)
    requires SameTrees(orig, ds, s, es) && Grown(s, t, b)
    requires forall i :: 0 <= i < |es| ==> b < es[i]
    ensures SameTrees(orig, ds, t, es)
  {
    forall i | 0 <= i < |es| ensures In(t, es[i]) && TreeOf(t, es[i]) == TreeOf(s, es[i]) {
      TreeFrame(s, t, es[i]);
    }
  }

  ghost predicate ListsAfter(m: map<string, seq<nat>>, b: nat) {
    forall name :: name in m ==> AllAfter(m[name], b)
  }

  ghost predicate AllAfter(es: seq<nat>, b: nat) {
    forall i :: 0 <= i < |es| ==> b < es[i]
  }

  lemma MapsKept(orig: Store, m: map<string, seq<nat>>, s: Store, n: map<string, seq<nat>>, t: Store, b: nat)
    requires SameMaps(orig, m, s, n) && Grown(s, t, b) && ListsAfter(n, b)
    ensures SameMaps(orig, m, t, n)
  {
    forall name | name in m ensures SameTrees(orig, m[name], t, n[name]) {
      assert name in n && AllAfter(n[name], b);
      TreesKept(orig, m[name], s, n[name], t, b);
    }
  }

  lemma ListsOf(s: Store, b: nat)
    requires In(s, b)
    ensures ListsAfter(s[b].sections, b) && ListsAfter(s[b].includes, b)
  {
    assert DictOk(s, b);
    forall name | name in s[b].sections ensures AllAfter(s[b].sections[name], b) {
      assert Children(s, b, s[b].sections[name], Some(b));
    }
    forall name | name in s[b].includes ensures AllAfter(s[b].includes[name], b) {
      assert Children(s, b, s[b].includes[name], None);
    }
  }

  /** The entries of m named in done are copied. */
  function Only(m: map<string, seq<nat>>, done: set<string>): map<string, seq<nat>> {
    map name | name in m && name in done :: m[name]
  }

  /** Filing a finished list keeps the store in order. */
  lemma FileSection(s: Store, b: nat, name: string, es: seq<nat>)
    requires In(s, b) && Children(s, b, es, Some(b))
    ensures Grown(s, s[b := s[b].(sections := s[b].sections[name := es])], b)
  {
    var t := s[b := s[b].(sections := s[b].sections[name := es])];
    forall i | 0 <= i < |t| ensures DictOk(t, i) {
      KeepsOrder(s, t, b, i);
      if i == b {
        forall other | other in t[b].sections ensures Children(t, b, t[b].sections[other], Some(b)) {
          assert other in s[b].sections ==> Children(s, b, s[b].sections[other], Some(b));
        }
        forall other | other in t[b].includes ensures Children(t, b, t[b].includes[other], None) {
          assert Children(s, b, s[b].includes[other], None);
        }
      }
    }
  }

  lemma FileInclude(s: Store, b: nat, name: string, es: seq<nat>)
    requires In(s, b) && Children(s, b, es, None)
    ensures Grown(s, s[b := s[b].(includes := s[b].includes[name := es])], b)
  {
    var t := s[b := s[b].(includes := s[b].includes[name := es])];
    forall i | 0 <= i < |t| ensures DictOk(t, i) {
      KeepsOrder(s, t, b, i);
      if i == b {
        forall other | other in t[b].sections ensures Children(t, b, t[b].sections[other], Some(b)) {
          assert Children(s, b, s[b].sections[other], Some(b));
        }
        forall other | other in t[b].includes ensures Children(t, b, t[b].includes[other], None) {
          assert other in s[b].includes ==> Children(s, b, s[b].includes[other], None);
        }
      }
    }
  }

  /** The other fields of b do not matter to the order. */
  lemma FileRest(s: Store, b: nat, dict: Dict)
    requires In(s, b) && dict.sections == s[b].sections && dict.includes == s[b].includes
    requires dict.owner == s[b].owner && dict.parent == s[b].parent
    requires dict.global != s[b].global ==> dict.global.Some? && s[b].owner == b && GlobalOk(s, b, dict.global.value)
    ensures Grown(s, s[b := dict], b)
  {
    var t := s[b := dict];
    forall i | 0 <= i < |t| ensures DictOk(t, i) {
      KeepsOrder(s, t, b, i);
      if i == b {
        forall other | other in t[b].sections ensures Children(t, b, t[b].sections[other], Some(b)) {
          assert Children(s, b, s[b].sections[other], Some(b));
        }
        forall other | other in t[b].includes ensures Children(t, b, t[b].includes[other], None) {
          assert Children(s, b, s[b].includes[other], None);
        }
      }
    }
  }

  lemma KeepsOrder(s: Store, t: Store, b: nat, i: nat)
    requires In(s, b) && i < |s| == |t| && (forall j :: 0 <= j < |s| && j != b ==> t[j] == s[j])
    requires t[b].owner == s[b].owner && t[b].parent == s[b].parent
    ensures DictOk(s, i)
    ensures i != b ==> DictOk(t, i)
  {
    assert DictOk(s, i);
    if i != b {
      forall name | name in t[i].sections ensures Children(t, i, t[i].sections[name], Some(i)) {
        assert Children(s, i, s[i].sections[name], Some(i));
      }
      forall name | name in t[i].includes ensures Children(t, i, t[i].includes[name], None) {
        assert Children(s, i, s[i].includes[name], None);
      }
    }
  }

  lemma PrefixTreesKept(orig: Store, ds: seq<nat>, s: Store, es: seq<nat>, t: Store)
    requires SameTrees(orig, ds, s, es) && s <= t && StoreOk(t)
    ensures SameTrees(orig, ds, t, es)
  {
    forall i | 0 <= i < |es| ensures In(t, es[i]) && TreeOf(t, es[i]) == TreeOf(s, es[i]) {
      TreeFrame(s, t, es[i]);
    }
  }

  /** An empty dictionary may be added to a store. */
  lemma NewDictOk(s: Store, parent: Option<nat>, owner: nat)
    requires StoreOk(s)
    requires if owner == |s| then parent == None else owner < |s| && s[owner].owner == owner
    requires parent.Some? ==> parent.value < |s| && s[parent.value].owner == owner
    ensures StoreOk(s + [EmptyDict(parent, owner)])
  {
    var t := s + [EmptyDict(parent, owner)];
    forall i | 0 <= i < |t| ensures DictOk(t, i) {
      if i < |s| {
        assert DictOk(s, i);
        forall name | name in t[i].sections ensures Children(t, i, t[i].sections[name], Some(i)) {
          assert Children(s, i, s[i].sections[name], Some(i));
        }
        forall name | name in t[i].includes ensures Children(t, i, t[i].includes[name], None) {
          assert Children(s, i, s[i].includes[name], None);
        }
      }
    }
  }

  /** Copies of the dictionaries ds, made after the store was s, with their parent and owner. */
  ghost predicate CopiedList(orig: Store, ds: seq<nat>, s: Store, t: Store, es: seq<nat>,
                             parent: Option<nat>, owner: nat) {
    && s <= t && SameTrees(orig, ds, t, es)
    && forall i :: 0 <= i < |es| ==> |s| <= es[i] < |t| && t[es[i]].parent == parent && t[es[i]].owner == owner
  }

  lemma CopiedOne(orig: Store, ds: seq<nat>, s: Store, t: Store, es: seq<nat>, parent: Option<nat>, owner: nat,
                  d: nat, u: Store, e: nat)
    requires CopiedList(orig, ds, s, t, es, parent, owner) && t <= u && StoreOk(u)
    requires In(orig, d) && |s| <= |t| <= e < |u| && u[e].parent == parent && u[e].owner == owner
    requires TreeOf(orig, d) == TreeOf(u, e)
    ensures CopiedList(orig, ds + [d], s, u, es + [e], parent, owner)
  {
    PrefixTreesKept(orig, ds, t, es, u);
  }

  /** One section's dictionaries have been copied and are filed under its name. */
  lemma SectionFiled(orig: Store, d: nat, b: nat, done: set<string>, name: string, s: Store, t: Store, es: seq<nat>)
    requires Building(orig, s, b) && d < |orig| && name in orig[d].sections && StoreOk(t)
    requires SameMaps(orig, Only(orig[d].sections, done), s, s[b].sections)
    requires CopiedList(orig, orig[d].sections[name], s, t, es, Some(b), s[b].owner)
    ensures b < |t|
    ensures var u := t[b := t[b].(sections := t[b].sections[name := es])];
      && Building(orig, u, b) && Grown(s, u, b) && u[b] == s[b].(sections := u[b].sections)
      && SameMaps(orig, Only(orig[d].sections, done + {name}), u, u[b].sections)
  {
    assert DictOk(orig, d);
    assert Children(orig, d, orig[d].sections[name], Some(d));
    ListsOf(s, b);
    MapsKept(orig, Only(orig[d].sections, done), s, s[b].sections, t, b);
    FileSection(t, b, name, es);
    var u := t[b := t[b].(sections := t[b].sections[name := es])];
    MapsKept(orig, Only(orig[d].sections, done + {name}), t, u[b].sections, u, b);
  }

  lemma IncludeFiled(orig: Store, d: nat, b: nat, done: set<string>, name: string, s: Store, t: Store, es: seq<nat>)
    requires Building(orig, s, b) && d < |orig| && name in orig[d].includes && StoreOk(t)
    requires SameMaps(orig, Only(orig[d].includes, done), s, s[b].includes)
    requires CopiedList(orig, orig[d].includes[name], s, t, es, None, s[b].owner)
    ensures b < |t|
    ensures var u := t[b := t[b].(includes := t[b].includes[name := es])];
      && Building(orig, u, b) && Grown(s, u, b) && u[b] == s[b].(includes := u[b].includes)
      && SameMaps(orig, Only(orig[d].includes, done + {name}), u, u[b].includes)
  {
    assert DictOk(orig, d);
    assert Children(orig, d, orig[d].includes[name], None);
    ListsOf(s, b);
    MapsKept(orig, Only(orig[d].includes, done), s, s[b].includes, t, b);
    FileInclude(t, b, name, es);
    var u := t[b := t[b].(includes := t[b].includes[name := es])];
    MapsKept(orig, Only(orig[d].includes, done + {name}), t, u[b].includes, u, b);
  }

  /** All parts of b are copies of the parts of d. */
  lemma CopyIsDone(orig: Store, d: nat, s: Store, b: nat, t: Store)
    requires Building(orig, s, b) && d < |orig| && Grown(s, t, b)
    requires t == s[b := s[b].(filename := Some(Filename(orig, d)))]
    requires s[b].vars == orig[d].vars && SameGlobals(orig, orig[d].global, s, s[b].global)
    requires SameMaps(orig, orig[d].sections, s, s[b].sections) && SameMaps(orig, orig[d].includes, s, s[b].includes)
    ensures TreeOf(orig, d) == TreeOf(t, b)
  {
    ListsOf(s, b);
    MapsKept(orig, orig[d].sections, s, s[b].sections, t, b);
    MapsKept(orig, orig[d].includes, s, s[b].includes, t, b);
    GlobalKept(orig, d, s, b, t);
    SameTreeIff(orig, d, t, b);
  }

  lemma GlobalKept(orig: Store, d: nat, s: Store, b: nat, t: Store)
    requires In(orig, d) && In(s, b) && Grown(s, t, b) && SameGlobals(orig, orig[d].global, s, s[b].global)
    ensures SameGlobals(orig, orig[d].global, t, s[b].global)
  {
    assert DictOk(s, b);
    if s[b].global.Some? {
      TreeFrame(s, t, s[b].global.value);
    }
  }

  lemma SectionsKept(orig: Store, d: nat, s: Store, b: nat, t: Store)
    requires In(orig, d) && In(s, b) && Grown(s, t, b) && SameMaps(orig, orig[d].sections, s, s[b].sections)
    ensures SameMaps(orig, orig[d].sections, t, s[b].sections)
  {
    ListsOf(s, b);
    MapsKept(orig, orig[d].sections, s, s[b].sections, t, b);
  }
}

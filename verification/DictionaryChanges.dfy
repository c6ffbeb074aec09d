/**
 The calls that change a dictionary (template_dictionary.cc), as functions of the store, and
 what every run of them leaves alone.
 */
module DictionaryChanges {
  import opened Wrappers
  import opened Dictionaries
  import opened DictionaryLikeness

  datatype Change =
    | SetValue(name: string, value: string)
    | SetTemplateGlobalValue(name: string, value: string)
    | AddSectionDictionary(name: string)
    | ShowSection(name: string)
    | ShowTemplateGlobalSection(name: string)
    | SetValueAndShowSection(name: string, value: string, section: string)
    | AddIncludeDictionary(name: string)
    | SetFilename(filename: string)

  function WithValue(s: Store, d: nat, name: string, value: string): Store
    requires d < |s|
  {
    s[d := s[d].(vars := s[d].vars[name := value])]
  }

  function Listed(m: map<string, seq<nat>>, name: string): seq<nat> {
    if name in m then m[name] else []
  }

  function WithSection(s: Store, d: nat, name: string): Store
    requires d < |s|
  {
    s[d := s[d].(sections := s[d].sections[name := Listed(s[d].sections, name) + [|s|]])]
      + [EmptyDict(Some(d), s[d].owner)]
  }

  function WithInclude(s: Store, d: nat, name: string): Store
    requires d < |s|
  {
    s[d := s[d].(includes := s[d].includes[name := Listed(s[d].includes, name) + [|s|]])]
      + [EmptyDict(None, s[d].owner)]
  }

  function Shown(s: Store, d: nat, name: string): Store
    requires d < |s|
  {
    if name in s[d].sections then s else WithSection(s, d, name)
  }

  /** LazyCreateTemplateGlobalDict, for the top-level dictionary o. */
  function WithGlobal(s: Store, o: nat): Store
    requires o < |s|
  {
    if s[o].global.Some? then s else s[o := s[o].(global := Some(|s|))] + [EmptyDict(Some(o), o)]
  }

  lemma GlobalIsThere(s: Store, d: nat)
    requires In(s, d)
    ensures s[d].owner <= d
    ensures var o, t := s[d].owner, WithGlobal(s, s[d].owner); t[o].global.Some? && t[o].global.value < |t|
  {
    assert DictOk(s, d);
    assert DictOk(s, s[d].owner);
  }

  function Apply(s: Store, d: nat, c: Change): Store
    requires In(s, d)
  {
    match c
    case SetValue(name, value) => WithValue(s, d, name, value)
    case SetTemplateGlobalValue(name, value) =>
      GlobalIsThere(s, d);
      var t := WithGlobal(s, s[d].owner);
      WithValue(t, t[s[d].owner].global.value, name, value)
    case AddSectionDictionary(name) => WithSection(s, d, name)
    case ShowSection(name) => Shown(s, d, name)
    case ShowTemplateGlobalSection(name) =>
      GlobalIsThere(s, d);
      var t := WithGlobal(s, s[d].owner);
      Shown(t, t[s[d].owner].global.value, name)
    case SetValueAndShowSection(name, value, section) =>
      if value == "" then s else WithValue(WithSection(s, d, section), |s|, name, value)
    case AddIncludeDictionary(name) => WithInclude(s, d, name)
    case SetFilename(filename) => s[d := s[d].(filename := Some(filename))]
  }

  /** Only dictionaries of the owner o have changed, and none has moved. */
  ghost predicate Elsewhere(s: Store, t: Store, o: nat) {
    |s| <= |t| && forall i :: 0 <= i < |s| ==> t[i].owner == s[i].owner && (s[i].owner != o ==> t[i] == s[i])
  }

  /** Dictionaries that have kept their places and lists are still in order. */
  lemma SameShapeOk(s: Store, t: Store, d: nat)
    requires In(s, d) && |s| <= |t|
    requires forall i :: 0 <= i < |s| ==> t[i].owner == s[i].owner && t[i].parent == s[i].parent
    requires t[d].sections == s[d].sections && t[d].includes == s[d].includes && t[d].global == s[d].global
    ensures DictOk(t, d)
  {
    assert DictOk(s, d);
    forall name | name in t[d].sections ensures Children(t, d, t[d].sections[name], Some(d)) {
      assert Children(s, d, s[d].sections[name], Some(d));
    }
    forall name | name in t[d].includes ensures Children(t, d, t[d].includes[name], None) {
      assert Children(s, d, s[d].includes[name], None);
    }
  }

  lemma WithValueKeeps(s: Store, d: nat, name: string, value: string)
    requires In(s, d)
    ensures var t := WithValue(s, d, name, value); StoreOk(t) && Elsewhere(s, t, s[d].owner)
  {
    var t := WithValue(s, d, name, value);
    forall i | 0 <= i < |t| ensures DictOk(t, i) {
      SameShapeOk(s, t, i);
    }
  }

  lemma WithFilenameKeeps(s: Store, d: nat, filename: string)
    requires In(s, d)
    ensures var t := s[d := s[d].(filename := Some(filename))]; StoreOk(t) && Elsewhere(s, t, s[d].owner)
  {
    var t := s[d := s[d].(filename := Some(filename))];
    forall i | 0 <= i < |t| ensures DictOk(t, i) {
      SameShapeOk(s, t, i);
    }
  }

  lemma WithSectionKeeps(s: Store, d: nat, name: string)
    requires In(s, d)
    ensures var t := WithSection(s, d, name); StoreOk(t) && Elsewhere(s, t, s[d].owner)
  {
    var t := WithSection(s, d, name);
    assert DictOk(s, d);
    forall i | 0 <= i < |t| ensures DictOk(t, i) {
      if i < |s| && i != d {
        SameShapeOk(s, t, i);
      } else if i == d {
        forall other | other in t[d].sections ensures Children(t, d, t[d].sections[other], Some(d)) {
          assert other in s[d].sections ==> Children(s, d, s[d].sections[other], Some(d));
        }
        forall other | other in t[d].includes ensures Children(t, d, t[d].includes[other], None) {
          assert Children(s, d, s[d].includes[other], None);
        }
      } else {
        assert t[i] == EmptyDict(Some(d), s[d].owner) && DictOk(s, s[d].owner);
      }
    }
  }

  lemma WithIncludeKeeps(s: Store, d: nat, name: string)
    requires In(s, d)
    ensures var t := WithInclude(s, d, name); StoreOk(t) && Elsewhere(s, t, s[d].owner)
  {
    var t := WithInclude(s, d, name);
    assert DictOk(s, d);
    forall i | 0 <= i < |t| ensures DictOk(t, i) {
      if i < |s| && i != d {
        SameShapeOk(s, t, i);
      } else if i == d {
        forall other | other in t[d].includes ensures Children(t, d, t[d].includes[other], None) {
          assert other in s[d].includes ==> Children(s, d, s[d].includes[other], None);
        }
        forall other | other in t[d].sections ensures Children(t, d, t[d].sections[other], Some(d)) {
          assert Children(s, d, s[d].sections[other], Some(d));
        }
      } else {
        assert t[i] == EmptyDict(None, s[d].owner) && DictOk(s, s[d].owner);
      }
    }
  }

  lemma WithGlobalKeeps(s: Store, o: nat)
    requires In(s, o) && s[o].owner == o
    ensures var t := WithGlobal(s, o);
      && StoreOk(t) && Elsewhere(s, t, o)
      && t[o].global.Some? && t[o].global.value < |t| && t[t[o].global.value].owner == o
  {
    var t := WithGlobal(s, o);
    assert DictOk(s, o);
    if s[o].global.None? {
      forall i | 0 <= i < |t| ensures DictOk(t, i) {
        if i < |s| && i != o {
          SameShapeOk(s, t, i);
        } else if i == o {
          forall other | other in t[o].sections ensures Children(t, o, t[o].sections[other], Some(o)) {
            assert Children(s, o, s[o].sections[other], Some(o));
          }
          forall other | other in t[o].includes ensures Children(t, o, t[o].includes[other], None) {
            assert Children(s, o, s[o].includes[other], None);
          }
        } else {
          assert t[i] == EmptyDict(Some(o), o);
        }
      }
    }
  }

  /** Every call keeps the store in order and touches no dictionary of another top-level one. */
  lemma ChangeKeeps(s: Store, d: nat, c: Change)
    requires In(s, d)
    ensures StoreOk(Apply(s, d, c)) && Elsewhere(s, Apply(s, d, c), s[d].owner)
  {
    assert DictOk(s, d);
    match c
    case SetValue(name, value) => WithValueKeeps(s, d, name, value);
    case SetTemplateGlobalValue(name, value) =>
      WithGlobalKeeps(s, s[d].owner);
      var t := WithGlobal(s, s[d].owner);
      WithValueKeeps(t, t[s[d].owner].global.value, name, value);
    case AddSectionDictionary(name) => WithSectionKeeps(s, d, name);
    case ShowSection(name) => WithSectionKeeps(s, d, name);
    case ShowTemplateGlobalSection(name) =>
      WithGlobalKeeps(s, s[d].owner);
      var t := WithGlobal(s, s[d].owner);
      WithSectionKeeps(t, t[s[d].owner].global.value, name);
    case SetValueAndShowSection(name, value, section) =>
      WithSectionKeeps(s, d, section);
      WithValueKeeps(WithSection(s, d, section), |s|, name, value);
    case AddIncludeDictionary(name) => WithIncludeKeeps(s, d, name);
    case SetFilename(filename) => WithFilenameKeeps(s, d, filename);
  }

  /** A call on the dictionary at a place. */
  datatype Call = Call(dict: nat, change: Change)

  /** Calls on dictionaries of the owner o, each one there when it is called. */
  ghost predicate CallsOn(s: Store, o: nat, cs: seq<Call>)
    requires StoreOk(s)
    decreases cs
  {
    cs != [] ==>
      && cs[0].dict < |s| && s[cs[0].dict].owner == o
      && StoreOk(Apply(s, cs[0].dict, cs[0].change))
      && CallsOn(Apply(s, cs[0].dict, cs[0].change), o, cs[1..])
  }

  ghost function ApplyAll(s: Store, o: nat, cs: seq<Call>): Store
    requires StoreOk(s) && CallsOn(s, o, cs)
    decreases cs
  {
    if cs == [] then s else ApplyAll(Apply(s, cs[0].dict, cs[0].change), o, cs[1..])
  }

  lemma {:induction false} CallsKeep(s: Store, o: nat, cs: seq<Call>)
    requires StoreOk(s) && CallsOn(s, o, cs)
    ensures StoreOk(ApplyAll(s, o, cs)) && Elsewhere(s, ApplyAll(s, o, cs), o)
    decreases cs
  {
    if cs != [] {
      ChangeKeeps(s, cs[0].dict, cs[0].change);
      CallsKeep(Apply(s, cs[0].dict, cs[0].change), o, cs[1..]);
    }
  }

  /** Whatever is done to other dictionaries, x goes on answering as before. */
  lemma CallsElsewhereAreNotNoticed(s: Store, o: nat, cs: seq<Call>, x: nat)
    requires In(s, x) && CallsOn(s, o, cs) && s[x].owner != o
    ensures Alike(s, x, ApplyAll(s, o, cs), x)
  {
    CallsKeep(s, o, cs);
    UntouchedIsAlike(s, ApplyAll(s, o, cs), x);
  }
}

module DictionarySetters {
  // What the setters of a dictionary do, told by the lookups (template_dictionary.cc): along the
  // parents the nearest definition wins, and a setter is seen exactly from where no nearer one is.

  import opened Wrappers
  import opened Dictionaries
  import opened DictionaryChanges

  // ----- the nearest definition along the parents -----

  /** d, its parent, the parent of that, and so on. */
  function Chain(s: Store, d: nat): (chain: seq<nat>)
    requires In(s, d)
    ensures |chain| > 0 && chain[0] == d
    ensures forall i :: 0 <= i < |chain| ==> chain[i] < |s|
    decreases d
  {
    assert DictOk(s, d);
    if s[d].parent.None? then [d] else [d] + Chain(s, s[d].parent.value)
  }

  lemma {:induction false} ChainGoesUp(s: Store, d: nat, i: nat)
    requires In(s, d) && i < |Chain(s, d)|
    ensures s[Chain(s, d)[i]].parent == if i + 1 < |Chain(s, d)| then Some(Chain(s, d)[i + 1]) else None
    decreases d
  {
    assert DictOk(s, d);
    if i > 0 {
      ChainGoesUp(s, s[d].parent.value, i - 1);
    }
  }

  /** h stands on the chain with none of the stops before it. */
  ghost predicate Reaches(chain: seq<nat>, stops: set<nat>, h: nat) {
    exists k :: 0 <= k < |chain| && chain[k] == h && forall j :: 0 <= j < k ==> chain[j] !in stops
  }

  ghost predicate Nearest(chain: seq<nat>, stops: set<nat>, h: nat) {
    h in stops && Reaches(chain, stops, h)
  }

  /** The chain passes no stop. */
  ghost predicate Misses(chain: seq<nat>, stops: set<nat>) {
    forall h :: h in chain ==> h !in stops
  }

  lemma ReachesStep(d: nat, rest: seq<nat>, stops: set<nat>, h: nat)
    ensures Reaches([d] + rest, stops, h) <==> d == h || (d !in stops && Reaches(rest, stops, h))
  {
    var chain := [d] + rest;
    assert chain[0] == d;
    if d != h && Reaches(chain, stops, h) {
      var k :| 0 <= k < |chain| && chain[k] == h && forall j :: 0 <= j < k ==> chain[j] !in stops;
      assert rest[k - 1] == h;
      assert forall j :: 0 <= j < k - 1 ==> rest[j] == chain[j + 1];
    }
    if d !in stops && Reaches(rest, stops, h) {
      var k :| 0 <= k < |rest| && rest[k] == h && forall j :: 0 <= j < k ==> rest[j] !in stops;
      assert forall j :: 0 < j < k + 1 ==> chain[j] == rest[j - 1];
      assert chain[k + 1] == h;
    }
  }

  lemma ReachesNothing(stops: set<nat>, h: nat)
    ensures !Reaches([], stops, h)
  {
  }

  /** The dictionaries that define a variable, a section or an include of the name. */
  ghost function Valuing(s: Store, name: string): set<nat> {
    set d | 0 <= d < |s| && name in s[d].vars
  }

  ghost function Sectioning(s: Store, name: string): set<nat> {
    set d | 0 <= d < |s| && name in s[d].sections
  }

  ghost function Including(s: Store, name: string): set<nat> {
    set d | 0 <= d < |s| && name in s[d].includes
  }

  /** Reaches, one dictionary at a time. */
  lemma ReachesUp(s: Store, d: nat, stops: set<nat>, h: nat)
    requires In(s, d)
    ensures s[d].parent.Some? ==> In(s, s[d].parent.value)
    ensures Reaches(Chain(s, d), stops, h) <==>
      d == h || (d !in stops && s[d].parent.Some? && Reaches(Chain(s, s[d].parent.value), stops, h))
    ensures Misses(Chain(s, d), stops) <==>
      d !in stops && (s[d].parent.Some? ==> Misses(Chain(s, s[d].parent.value), stops))
  {
    assert DictOk(s, d);
    if s[d].parent.None? {
      ReachesStep(d, [], stops, h);
      ReachesNothing(stops, h);
      assert [d] + [] == [d];
    } else {
      var up := Chain(s, s[d].parent.value);
      ReachesStep(d, up, stops, h);
      assert forall x :: x in Chain(s, d) <==> x == d || x in up;
    }
  }

  /** Where a variable or section is looked for: up the parents, then the template-global one. */
  function Scope(s: Store, d: nat): seq<nat>
    requires In(s, d)
  {
    Chain(s, d) + (if Global(s, d).Some? then [Global(s, d).value] else [])
  }

  lemma ReachesInScope(s: Store, d: nat, stops: set<nat>, h: nat)
    requires In(s, d)
    ensures Reaches(Scope(s, d), stops, h) <==>
      Reaches(Chain(s, d), stops, h) || (Global(s, d) == Some(h) && Misses(Chain(s, d), stops))
    ensures Misses(Scope(s, d), stops) <==>
      Misses(Chain(s, d), stops) && (Global(s, d).Some? ==> Global(s, d).value !in stops)
  {
    var chain, scope := Chain(s, d), Scope(s, d);
    assert forall j :: 0 <= j < |chain| ==> scope[j] == chain[j];
    if Reaches(scope, stops, h) {
      var k :| 0 <= k < |scope| && scope[k] == h && forall j :: 0 <= j < k ==> scope[j] !in stops;
      if k == |chain| {
        assert forall j :: 0 <= j < |chain| ==> chain[j] !in stops;
      } else {
        assert chain[k] == h;
      }
    }
    if Reaches(chain, stops, h) {
      var k :| 0 <= k < |chain| && chain[k] == h && forall j :: 0 <= j < k ==> chain[j] !in stops;
      assert scope[k] == h;
    }
    if Global(s, d) == Some(h) && Misses(chain, stops) {
      assert scope[|chain|] == h;
    }
    assert forall x :: x in scope <==> x in chain || Global(s, d) == Some(x);
  }

  lemma {:induction false} NearestVariable(s: Store, d: nat, name: string, h: nat)
    requires In(s, d)
    ensures Nearest(Chain(s, d), Valuing(s, name), h) ==>
      name in s[h].vars && FindVariable(s, d, name) == Some(s[h].vars[name])
    ensures FindVariable(s, d, name).None? <==> Misses(Chain(s, d), Valuing(s, name))
    decreases d
  {
    assert DictOk(s, d);
    ReachesUp(s, d, Valuing(s, name), h);
    if s[d].parent.Some? {
      NearestVariable(s, s[d].parent.value, name, h);
    }
  }

  lemma {:induction false} NearestSectionHolder(s: Store, d: nat, name: string, h: nat)
    requires In(s, d)
    ensures SectionHolder(s, d, name) == Some(h) <==> Nearest(Chain(s, d), Sectioning(s, name), h)
    ensures SectionHolder(s, d, name).None? <==> Misses(Chain(s, d), Sectioning(s, name))
    decreases d
  {
    assert DictOk(s, d);
    ReachesUp(s, d, Sectioning(s, name), h);
    if s[d].parent.Some? {
      NearestSectionHolder(s, s[d].parent.value, name, h);
    }
  }

  lemma {:induction false} NearestIncludeHolder(s: Store, d: nat, name: string, h: nat)
    requires In(s, d)
    ensures IncludeHolder(s, d, name) == Some(h) <==> Nearest(Chain(s, d), Including(s, name), h)
    ensures IncludeHolder(s, d, name).None? <==> Misses(Chain(s, d), Including(s, name))
    decreases d
  {
    assert DictOk(s, d);
    ReachesUp(s, d, Including(s, name), h);
    if s[d].parent.Some? {
      NearestIncludeHolder(s, s[d].parent.value, name, h);
    }
  }

  /** The nearest value in scope wins; then come the global ones, and then the empty one. */
  lemma NearestValueWins(s: Store, globals: map<string, string>, d: nat, name: string, h: nat)
    requires In(s, d)
    ensures Nearest(Scope(s, d), Valuing(s, name), h) ==>
      name in s[h].vars && GetValue(s, globals, d, name) == s[h].vars[name]
    ensures Misses(Scope(s, d), Valuing(s, name)) ==>
      GetValue(s, globals, d, name) == if name in globals then globals[name] else ""
  {
    NearestVariable(s, d, name, h);
    ReachesInScope(s, d, Valuing(s, name), h);
  }

  lemma NearestSectionWins(s: Store, d: nat, name: string, h: nat)
    requires In(s, d)
    ensures Nearest(Scope(s, d), Sectioning(s, name), h) ==>
      name in s[h].sections && FindSection(s, d, name) == Some(s[h].sections[name])
    ensures IsHiddenSection(s, d, name) <==> Misses(Scope(s, d), Sectioning(s, name))
  {
    NearestSectionHolder(s, d, name, h);
    ReachesInScope(s, d, Sectioning(s, name), h);
  }

  /** Template-global includes are not in scope. */
  lemma NearestIncludeWins(s: Store, d: nat, name: string, h: nat)
    requires In(s, d)
    ensures Nearest(Chain(s, d), Including(s, name), h) ==>
      name in s[h].includes && FindInclude(s, d, name) == Some(s[h].includes[name])
    ensures IsHiddenTemplate(s, d, name) <==> Misses(Chain(s, d), Including(s, name))
  {
    NearestIncludeHolder(s, d, name, h);
  }

  // ----- lookups in a store that has changed -----

  /** The dictionaries of s are those of t in the same places, and have the same parents. */
  ghost predicate Kept(s: Store, t: Store) {
    && StoreOk(s) && StoreOk(t) && |s| <= |t|
    && forall i :: 0 <= i < |s| ==> t[i].parent == s[i].parent && t[i].owner == s[i].owner
  }

  lemma {:induction false} SameChain(s: Store, t: Store, x: nat)
    requires Kept(s, t) && x < |s|
    ensures Chain(t, x) == Chain(s, x)
    decreases x
  {
    assert DictOk(s, x);
    if s[x].parent.Some? {
      SameChain(s, t, s[x].parent.value);
    }
  }

  /** In t the variable name of d is value, and all else is as in s. */
  lemma {:induction false} VariableAfter(s: Store, t: Store, d: nat, name: string, value: string, x: nat, other: string)
    requires Kept(s, t) && x < |s| && d < |s|
    requires forall i :: 0 <= i < |s| ==> t[i].vars == if i == d then s[i].vars[name := value] else s[i].vars
    ensures FindVariable(t, x, other) ==
      if other == name && Reaches(Chain(s, x), Valuing(s, name), d) then Some(value) else FindVariable(s, x, other)
    decreases x
  {
    assert DictOk(s, x);
    ReachesUp(s, x, Valuing(s, name), d);
    if s[x].parent.Some? {
      VariableAfter(s, t, d, name, value, s[x].parent.value, other);
    }
  }

  lemma {:induction false} VariableStays(s: Store, t: Store, x: nat, name: string)
    requires Kept(s, t) && x < |s| && forall i :: 0 <= i < |s| ==> t[i].vars == s[i].vars
    ensures FindVariable(t, x, name) == FindVariable(s, x, name)
    decreases x
  {
    assert DictOk(s, x);
    if s[x].parent.Some? {
      VariableStays(s, t, s[x].parent.value, name);
    }
  }

  /** In t the section name of d is ds, and all else is as in s. */
  lemma {:induction false} SectionAfter(s: Store, t: Store, d: nat, name: string, ds: seq<nat>, x: nat, other: string)
    requires Kept(s, t) && x < |s| && d < |s|
    requires forall i :: 0 <= i < |s| ==> t[i].sections == if i == d then s[i].sections[name := ds] else s[i].sections
    ensures SectionHolder(t, x, other) ==
      if other == name && Reaches(Chain(s, x), Sectioning(s, name), d) then Some(d) else SectionHolder(s, x, other)
    decreases x
  {
    assert DictOk(s, x);
    ReachesUp(s, x, Sectioning(s, name), d);
    if s[x].parent.Some? {
      SectionAfter(s, t, d, name, ds, s[x].parent.value, other);
    }
  }

  lemma {:induction false} SectionStays(s: Store, t: Store, x: nat, name: string)
    requires Kept(s, t) && x < |s| && forall i :: 0 <= i < |s| ==> t[i].sections == s[i].sections
    ensures SectionHolder(t, x, name) == SectionHolder(s, x, name)
    ensures SectionHolder(s, x, name).Some? ==> SectionHolder(s, x, name).value < |s|
    decreases x
  {
    assert DictOk(s, x);
    if s[x].parent.Some? {
      SectionStays(s, t, s[x].parent.value, name);
    }
  }

  lemma {:induction false} IncludeAfter(s: Store, t: Store, d: nat, name: string, ds: seq<nat>, x: nat, other: string)
    requires Kept(s, t) && x < |s| && d < |s|
    requires forall i :: 0 <= i < |s| ==> t[i].includes == if i == d then s[i].includes[name := ds] else s[i].includes
    ensures IncludeHolder(t, x, other) ==
      if other == name && Reaches(Chain(s, x), Including(s, name), d) then Some(d) else IncludeHolder(s, x, other)
    decreases x
  {
    assert DictOk(s, x);
    ReachesUp(s, x, Including(s, name), d);
    if s[x].parent.Some? {
      IncludeAfter(s, t, d, name, ds, s[x].parent.value, other);
    }
  }

  lemma {:induction false} IncludeStays(s: Store, t: Store, x: nat, name: string)
    requires Kept(s, t) && x < |s| && forall i :: 0 <= i < |s| ==> t[i].includes == s[i].includes
    ensures IncludeHolder(t, x, name) == IncludeHolder(s, x, name)
    decreases x
  {
    assert DictOk(s, x);
    if s[x].parent.Some? {
      IncludeStays(s, t, s[x].parent.value, name);
    }
  }

  // ----- what stays as it was for the dictionaries that were there -----

  ghost predicate ValuesStay(s: Store, t: Store)
    requires Kept(s, t)
  {
    forall g: map<string, string>, x: nat, name: string :: x < |s| ==>
      GetValue(t, g, x, name) == GetValue(s, g, x, name)
  }

  ghost predicate SectionsStay(s: Store, t: Store)
    requires Kept(s, t)
  {
    forall x: nat, name: string :: x < |s| ==> FindSection(t, x, name) == FindSection(s, x, name)
  }

  ghost predicate IncludesStay(s: Store, t: Store)
    requires Kept(s, t)
  {
    forall x: nat, name: string :: x < |s| ==> FindInclude(t, x, name) == FindInclude(s, x, name)
  }

  ghost predicate FilenamesStay(s: Store, t: Store)
    requires Kept(s, t)
  {
    forall x: nat :: x < |s| ==> Filename(t, x) == Filename(s, x)
  }

  lemma UnchangedValuesStay(s: Store, t: Store)
    requires Kept(s, t)
    requires forall i :: 0 <= i < |s| ==> t[i].vars == s[i].vars
    requires forall i :: 0 <= i < |s| ==>
      t[i].global == s[i].global || (s[i].global.None? && t[i].global.value < |t| && t[t[i].global.value].vars == map[])
    ensures ValuesStay(s, t)
  {
    forall g: map<string, string>, x: nat, name: string | x < |s|
      ensures GetValue(t, g, x, name) == GetValue(s, g, x, name)
    {
      VariableStays(s, t, x, name);
      assert DictOk(s, x) && DictOk(s, s[x].owner);
    }
  }

  lemma UnchangedSectionsStay(s: Store, t: Store)
    requires Kept(s, t)
    requires forall i :: 0 <= i < |s| ==> t[i].sections == s[i].sections
    requires forall i :: 0 <= i < |s| ==>
      t[i].global == s[i].global ||
      (s[i].global.None? && t[i].global.value < |t| && t[t[i].global.value].sections == map[])
    ensures SectionsStay(s, t)
  {
    forall x: nat, name: string | x < |s| ensures FindSection(t, x, name) == FindSection(s, x, name) {
      SectionStays(s, t, x, name);
      assert DictOk(s, x) && DictOk(s, s[x].owner);
    }
  }

  lemma UnchangedIncludesStay(s: Store, t: Store)
    requires Kept(s, t) && forall i :: 0 <= i < |s| ==> t[i].includes == s[i].includes
    ensures IncludesStay(s, t)
  {
    forall x: nat, name: string | x < |s| ensures FindInclude(t, x, name) == FindInclude(s, x, name) {
      IncludeStays(s, t, x, name);
    }
  }

  lemma StaysThrough(s: Store, s1: Store, t: Store)
    requires Kept(s, s1) && Kept(s1, t)
    ensures Kept(s, t)
    ensures ValuesStay(s, s1) && ValuesStay(s1, t) ==> ValuesStay(s, t)
    ensures SectionsStay(s, s1) && SectionsStay(s1, t) ==> SectionsStay(s, t)
    ensures IncludesStay(s, s1) && IncludesStay(s1, t) ==> IncludesStay(s, t)
    ensures FilenamesStay(s, s1) && FilenamesStay(s1, t) ==> FilenamesStay(s, t)
  {
    hide GetValue, FindSection, FindInclude, Filename, StoreOk;
    if ValuesStay(s, s1) && ValuesStay(s1, t) {
      forall g: map<string, string>, x: nat, name: string | x < |s|
        ensures GetValue(t, g, x, name) == GetValue(s, g, x, name)
      {
        assert GetValue(s1, g, x, name) == GetValue(s, g, x, name);
      }
    }
    if SectionsStay(s, s1) && SectionsStay(s1, t) {
      forall x: nat, name: string | x < |s| ensures FindSection(t, x, name) == FindSection(s, x, name) {
        assert FindSection(s1, x, name) == FindSection(s, x, name);
      }
    }
    if IncludesStay(s, s1) && IncludesStay(s1, t) {
      forall x: nat, name: string | x < |s| ensures FindInclude(t, x, name) == FindInclude(s, x, name) {
        assert FindInclude(s1, x, name) == FindInclude(s, x, name);
      }
    }
    if FilenamesStay(s, s1) && FilenamesStay(s1, t) {
      forall x: nat | x < |s| ensures Filename(t, x) == Filename(s, x) {
        assert Filename(s1, x) == Filename(s, x);
      }
    }
  }

  // ----- SetValue -----

  /** From x the variable name of d would be seen, as no nearer dictionary in scope has one. */
  ghost predicate SeesValue(s: Store, x: nat, d: nat, name: string)
    requires In(s, x)
  {
    Reaches(Scope(s, x), Valuing(s, name), d)
  }

  lemma ValueAfter(s: Store, d: nat, name: string, value: string, g: map<string, string>, x: nat, other: string)
    requires In(s, d) && x < |s| && StoreOk(WithValue(s, d, name, value))
    ensures GetValue(WithValue(s, d, name, value), g, x, other) ==
      if other == name && SeesValue(s, x, d, name) then value else GetValue(s, g, x, other)
  {
    var t := WithValue(s, d, name, value);
    VariableAfter(s, t, d, name, value, x, other);
    NearestVariable(s, x, name, x);
    ReachesInScope(s, x, Valuing(s, name), d);
    assert DictOk(s, x) && DictOk(s, s[x].owner);
    hide FindVariable, Reaches, Chain, Scope, DictOk, Misses;
  }

  /** A variable set is what is seen of it, wherever no nearer dictionary has one. */
  lemma SetValueIsSeen(s: Store, d: nat, name: string, value: string)
    requires In(s, d)
    ensures var t := Apply(s, d, SetValue(name, value));
      && Kept(s, t) && |t| == |s| && SectionsStay(s, t) && IncludesStay(s, t) && FilenamesStay(s, t)
      && (forall g: map<string, string>, x: nat, other: string :: x < |s| ==>
            GetValue(t, g, x, other) ==
              if other == name && SeesValue(s, x, d, name) then value else GetValue(s, g, x, other))
      && forall g: map<string, string> :: GetValue(t, g, d, name) == value
  {
    WithValueKeeps(s, d, name, value);
    var t := WithValue(s, d, name, value);
    UnchangedSectionsStay(s, t);
    UnchangedIncludesStay(s, t);
    forall g: map<string, string>, x: nat, other: string | x < |s|
      ensures GetValue(t, g, x, other) ==
        if other == name && SeesValue(s, x, d, name) then value else GetValue(s, g, x, other)
    {
      ValueAfter(s, d, name, value, g, x, other);
    }
    ReachesUp(s, d, Valuing(s, name), d);
    ReachesInScope(s, d, Valuing(s, name), d);
  }

  // ----- SetTemplateGlobalValue -----

  /** Making the template-global dictionary is not noticed. */
  lemma GlobalIsNotNoticed(s: Store, o: nat)
    requires In(s, o) && s[o].owner == o
    ensures var t := WithGlobal(s, o);
      Kept(s, t) && ValuesStay(s, t) && SectionsStay(s, t) && IncludesStay(s, t) && FilenamesStay(s, t)
  {
    WithGlobalKeeps(s, o);
    var t := WithGlobal(s, o);
    UnchangedValuesStay(s, t);
    UnchangedSectionsStay(s, t);
    UnchangedIncludesStay(s, t);
  }

  /** What is set in the template-global dictionary of d is seen from x. */
  ghost predicate SeesGlobally(s: Store, x: nat, d: nat, stops: set<nat>)
    requires In(s, x) && In(s, d)
  {
    || (s[x].owner == s[d].owner && Misses(Chain(s, x), stops))
    || (Global(s, d).Some? && Reaches(Chain(s, x), stops, Global(s, d).value))
  }

  /** The new dictionary is on nobody's chain, so the two ways of seeing it are one. */
  lemma SeesGlobalValue(s: Store, d: nat, name: string, x: nat)
    requires In(s, d) && x < |s| && s[d].owner <= d && s[s[d].owner].owner == s[d].owner
    requires Kept(s, WithGlobal(s, s[d].owner))
    ensures var t := WithGlobal(s, s[d].owner);
      var g := t[s[d].owner].global;
      g.Some? && (SeesValue(t, x, g.value, name) <==> SeesGlobally(s, x, d, Valuing(s, name)))
  {
    var o := s[d].owner;
    var t := WithGlobal(s, o);
    assert DictOk(s, x) && DictOk(s, s[x].owner) && DictOk(s, o);
    SameChain(s, t, x);
    assert Valuing(t, name) == Valuing(s, name);
    ReachesInScope(t, x, Valuing(t, name), t[o].global.value);
  }

  /** A template-global variable is seen from where no dictionary up the parents has one. */
  lemma SetTemplateGlobalValueIsSeen(s: Store, d: nat, name: string, value: string)
    requires In(s, d)
    ensures var t := Apply(s, d, SetTemplateGlobalValue(name, value));
      && Kept(s, t) && SectionsStay(s, t) && IncludesStay(s, t) && FilenamesStay(s, t)
      && forall g: map<string, string>, x: nat, other: string :: x < |s| ==>
           GetValue(t, g, x, other) ==
             if other == name && SeesGlobally(s, x, d, Valuing(s, name)) then value else GetValue(s, g, x, other)
  {
    GlobalIsThere(s, d);
    assert DictOk(s, d);
    var o := s[d].owner;
    var s1 := WithGlobal(s, o);
    WithGlobalKeeps(s, o);
    GlobalIsNotNoticed(s, o);
    var h := s1[o].global.value;
    SetValueIsSeen(s1, h, name, value);
    var t := Apply(s, d, SetTemplateGlobalValue(name, value));
    assert t == Apply(s1, h, SetValue(name, value));
    StaysThrough(s, s1, t);
    forall g: map<string, string>, x: nat, other: string | x < |s|
      ensures GetValue(t, g, x, other) ==
        if other == name && SeesGlobally(s, x, d, Valuing(s, name)) then value else GetValue(s, g, x, other)
    {
      SeesGlobalValue(s, d, name, x);
      assert GetValue(s1, g, x, other) == GetValue(s, g, x, other);
    }
  }

  // ----- AddSectionDictionary and ShowSection -----

  /** From x the section name of d would be seen, as no nearer dictionary in scope has one. */
  ghost predicate SeesSection(s: Store, x: nat, d: nat, name: string)
    requires In(s, x)
  {
    Reaches(Scope(s, x), Sectioning(s, name), d)
  }

  /** sub is an empty dictionary that sees whatever d sees. */
  ghost predicate StartsAs(t: Store, sub: nat, d: nat)
    requires In(t, sub) && In(t, d)
  {
    && t[sub] == EmptyDict(Some(d), t[d].owner)
    && (forall g: map<string, string>, name: string :: GetValue(t, g, sub, name) == GetValue(t, g, d, name))
    && (forall name: string :: FindSection(t, sub, name) == FindSection(t, d, name))
    && (forall name: string :: FindInclude(t, sub, name) == FindInclude(t, d, name))
  }

  lemma ChildStartsAs(t: Store, sub: nat, d: nat)
    requires In(t, sub) && In(t, d) && t[sub] == EmptyDict(Some(d), t[d].owner)
    ensures StartsAs(t, sub, d)
  {
  }

  /** The section name of d has one dictionary more, at the end of its list. */
  ghost predicate SectionGrows(s: Store, t: Store, d: nat, name: string, own: seq<nat>)
    requires Kept(s, t) && d < |s|
  {
    && (forall x: nat, other: string :: x < |s| ==>
          FindSection(t, x, other) ==
            if other == name && SeesSection(s, x, d, name) then Some(own + [|s|]) else FindSection(s, x, other))
    && FindSection(t, d, name) == Some(own + [|s|])
  }

  lemma FoundAfter(s: Store, d: nat, name: string, x: nat, other: string)
    requires In(s, d) && x < |s| && Kept(s, WithSection(s, d, name))
    ensures FindSection(WithSection(s, d, name), x, other) ==
      if other == name && SeesSection(s, x, d, name) then Some(Listed(s[d].sections, name) + [|s|])
      else FindSection(s, x, other)
  {
    var t := WithSection(s, d, name);
    SectionAfter(s, t, d, name, Listed(s[d].sections, name) + [|s|], x, other);
    NearestSectionHolder(s, x, name, d);
    ReachesInScope(s, x, Sectioning(s, name), d);
    assert DictOk(s, x) && DictOk(s, s[x].owner);
  }

  lemma AddSectionIsSeen(s: Store, d: nat, name: string)
    requires In(s, d)
    ensures var t := Apply(s, d, AddSectionDictionary(name));
      && Kept(s, t) && |t| == |s| + 1 && ValuesStay(s, t) && IncludesStay(s, t) && FilenamesStay(s, t)
      && SectionGrows(s, t, d, name, Listed(s[d].sections, name)) && StartsAs(t, |s|, d)
  {
    WithSectionKeeps(s, d, name);
    var t := WithSection(s, d, name);
    UnchangedValuesStay(s, t);
    UnchangedIncludesStay(s, t);
    forall x: nat, other: string | x < |s|
      ensures FindSection(t, x, other) ==
        if other == name && SeesSection(s, x, d, name) then Some(Listed(s[d].sections, name) + [|s|])
        else FindSection(s, x, other)
    {
      FoundAfter(s, d, name, x, other);
    }
    ReachesUp(s, d, Sectioning(s, name), d);
    ReachesInScope(s, d, Sectioning(s, name), d);
    ChildStartsAs(t, |s|, d);
  }

  /** A section is shown by one empty dictionary, unless d has the section already. */
  lemma ShowSectionIsSeen(s: Store, d: nat, name: string)
    requires In(s, d)
    ensures var t := Apply(s, d, ShowSection(name));
      if name in s[d].sections then t == s
      else
        && Kept(s, t) && |t| == |s| + 1 && ValuesStay(s, t) && IncludesStay(s, t) && FilenamesStay(s, t)
        && SectionGrows(s, t, d, name, []) && StartsAs(t, |s|, d)
  {
    if name !in s[d].sections {
      AddSectionIsSeen(s, d, name);
      assert Apply(s, d, ShowSection(name)) == Apply(s, d, AddSectionDictionary(name));
    }
  }

  lemma SeesGlobalSection(s: Store, d: nat, name: string, x: nat)
    requires In(s, d) && x < |s| && s[d].owner <= d && s[s[d].owner].owner == s[d].owner
    requires Kept(s, WithGlobal(s, s[d].owner))
    ensures var t := WithGlobal(s, s[d].owner);
      var g := t[s[d].owner].global;
      g.Some? && (SeesSection(t, x, g.value, name) <==> SeesGlobally(s, x, d, Sectioning(s, name)))
  {
    var o := s[d].owner;
    var t := WithGlobal(s, o);
    assert DictOk(s, x) && DictOk(s, s[x].owner) && DictOk(s, o);
    SameChain(s, t, x);
    assert Sectioning(t, name) == Sectioning(s, name);
    ReachesInScope(t, x, Sectioning(t, name), t[o].global.value);
  }

  /** The template-global dictionary of d has the section. */
  ghost predicate ShownGlobally(s: Store, d: nat, name: string)
    requires In(s, d)
  {
    Global(s, d).Some? && name in s[Global(s, d).value].sections
  }

  /** ShowTemplateGlobalSection is ShowSection on the template-global dictionary, made if need be. */
  lemma ShowsInGlobal(s: Store, d: nat, name: string)
    requires In(s, d)
    ensures s[d].owner <= d && s[s[d].owner].owner == s[d].owner
    ensures var s1 := WithGlobal(s, s[d].owner);
      var g := s1[s[d].owner].global;
      && StoreOk(s1) && g.Some? && g.value < |s1|
      && Apply(s, d, ShowTemplateGlobalSection(name)) == Apply(s1, g.value, ShowSection(name))
      && (ShownGlobally(s, d, name) <==> name in s1[g.value].sections) && (ShownGlobally(s, d, name) ==> s1 == s)
  {
    hide Chain, FindSection;
    GlobalIsThere(s, d);
    assert DictOk(s, d);
    WithGlobalKeeps(s, s[d].owner);
  }

  /** A template-global section is shown where no dictionary up the parents has the section. */
  lemma ShowTemplateGlobalSectionIsSeen(s: Store, d: nat, name: string)
    requires In(s, d)
    ensures var t := Apply(s, d, ShowTemplateGlobalSection(name));
      && Kept(s, t) && ValuesStay(s, t) && IncludesStay(s, t) && FilenamesStay(s, t)
      && (ShownGlobally(s, d, name) ==> t == s)
      && (!ShownGlobally(s, d, name) ==>
            && |t| > |s| && t[|t| - 1].vars == map[] && t[|t| - 1].sections == map[]
            && forall x: nat, other: string :: x < |s| ==>
                 FindSection(t, x, other) ==
                   if other == name && SeesGlobally(s, x, d, Sectioning(s, name)) then Some([|t| - 1])
                   else FindSection(s, x, other))
  {
    ShowsInGlobal(s, d, name);
    hide FindSection, GetValue, FindInclude, Chain, Reaches, Scope, SeesSection, SeesGlobally, Sectioning, Apply,
      WithGlobal, ShownGlobally, DictOk;
    var s1 := WithGlobal(s, s[d].owner);
    var h := s1[s[d].owner].global.value;
    var t := Apply(s, d, ShowTemplateGlobalSection(name));
    GlobalIsNotNoticed(s, s[d].owner);
    ShowSectionIsSeen(s1, h, name);
    if name !in s1[h].sections {
      StaysThrough(s, s1, t);
      GlobalSectionGrows(s, d, t, name);
    }
  }

  lemma GlobalSectionGrows(s: Store, d: nat, t: Store, name: string)
    requires In(s, d) && s[d].owner <= d && s[s[d].owner].owner == s[d].owner
    requires var s1 := WithGlobal(s, s[d].owner);
      && Kept(s, s1) && SectionsStay(s, s1) && Kept(s1, t) && |t| == |s1| + 1
      && s1[s[d].owner].global.Some? && s1[s[d].owner].global.value < |s1|
      && SectionGrows(s1, t, s1[s[d].owner].global.value, name, [])
    ensures forall x: nat, other: string :: x < |s| ==>
      FindSection(t, x, other) ==
        if other == name && SeesGlobally(s, x, d, Sectioning(s, name)) then Some([|t| - 1])
        else FindSection(s, x, other)
  {
    hide FindSection, SectionGrows, SectionsStay, SeesGlobally, SeesSection, WithGlobal;
    var s1 := WithGlobal(s, s[d].owner);
    forall x: nat, other: string | x < |s|
      ensures FindSection(t, x, other) ==
        if other == name && SeesGlobally(s, x, d, Sectioning(s, name)) then Some([|t| - 1])
        else FindSection(s, x, other)
    {
      SeesGlobalSection(s, d, name, x);
      ShownGloballyFrom(s, s1, t, s1[s[d].owner].global.value, name, x, other);
    }
  }

  lemma ShownGloballyFrom(s: Store, s1: Store, t: Store, h: nat, name: string, x: nat, other: string)
    requires Kept(s, s1) && SectionsStay(s, s1) && Kept(s1, t) && h < |s1| && |t| == |s1| + 1 && x < |s|
    requires SectionGrows(s1, t, h, name, [])
    ensures FindSection(t, x, other) ==
      if other == name && SeesSection(s1, x, h, name) then Some([|t| - 1]) else FindSection(s, x, other)
  {
    hide FindSection, SeesSection;
    assert FindSection(s1, x, other) == FindSection(s, x, other);
    assert [] + [|s1|] == [|s1|];
  }

  /** A dictionary that was not there is in no scope. */
  lemma NewIsUnseen(s: Store, t: Store, name: string)
    requires Kept(s, t) && forall i :: 0 <= i < |s| ==> t[i].global == s[i].global
    ensures forall x: nat, sub: nat :: x < |s| <= sub ==> !SeesValue(t, x, sub, name)
  {
    forall x: nat, sub: nat | x < |s| <= sub ensures !SeesValue(t, x, sub, name) {
      SameChain(s, t, x);
      ReachesInScope(t, x, Valuing(t, name), sub);
      assert DictOk(s, x) && DictOk(s, s[x].owner);
    }
  }

  /** Nothing for an empty value; else a new dictionary of the section that holds the variable. */
  lemma SetValueAndShowSectionIsSeen(s: Store, d: nat, name: string, value: string, section: string)
    requires In(s, d)
    ensures var t := Apply(s, d, SetValueAndShowSection(name, value, section));
      if value == "" then t == s
      else
        && Kept(s, t) && |t| == |s| + 1 && ValuesStay(s, t) && IncludesStay(s, t) && FilenamesStay(s, t)
        && SectionGrows(s, t, d, section, Listed(s[d].sections, section))
        && forall g: map<string, string>, other: string ::
             GetValue(t, g, |s|, other) == if other == name then value else GetValue(s, g, d, other)
  {
    hide FindSection, FindInclude, FindVariable, GetValue, Chain;
    if value != "" {
      AddSectionIsSeen(s, d, section);
      var s1 := Apply(s, d, AddSectionDictionary(section));
      var sub := |s|;
      SetValueIsSeen(s1, sub, name, value);
      var t := Apply(s, d, SetValueAndShowSection(name, value, section));
      assert t == Apply(s1, sub, SetValue(name, value));
      StaysThrough(s, s1, t);
      NewIsUnseen(s, s1, name);
      forall g: map<string, string>, x: nat, other: string | x < |s|
        ensures GetValue(t, g, x, other) == GetValue(s, g, x, other)
      {
        assert GetValue(s1, g, x, other) == GetValue(s, g, x, other);
      }
      ReachesUp(s1, sub, Valuing(s1, name), sub);
      ReachesInScope(s1, sub, Valuing(s1, name), sub);
      forall g: map<string, string>, other: string
        ensures GetValue(t, g, sub, other) == if other == name then value else GetValue(s, g, d, other)
      {
        assert GetValue(s1, g, sub, other) == GetValue(s1, g, d, other) == GetValue(s, g, d, other);
      }
    }
  }

  // ----- AddIncludeDictionary and SetFilename -----

  lemma IncludeFoundAfter(s: Store, d: nat, name: string, x: nat, other: string)
    requires In(s, d) && x < |s| && Kept(s, WithInclude(s, d, name))
    ensures FindInclude(WithInclude(s, d, name), x, other) ==
      if other == name && Reaches(Chain(s, x), Including(s, name), d)
      then Some(Listed(s[d].includes, name) + [|s|])
      else FindInclude(s, x, other)
  {
    IncludeAfter(s, WithInclude(s, d, name), d, name, Listed(s[d].includes, name) + [|s|], x, other);
    NearestIncludeHolder(s, x, name, d);
  }

  /** The new dictionary does not see past its template: only template-global and global things. */
  lemma AddIncludeIsSeen(s: Store, d: nat, name: string)
    requires In(s, d)
    ensures var t := Apply(s, d, AddIncludeDictionary(name));
      && Kept(s, t) && |t| == |s| + 1 && ValuesStay(s, t) && SectionsStay(s, t) && FilenamesStay(s, t)
      && t[|s|] == EmptyDict(None, s[d].owner) && Chain(t, |s|) == [|s|]
      && (forall x: nat, other: string :: x < |s| ==>
            FindInclude(t, x, other) ==
              if other == name && Reaches(Chain(s, x), Including(s, name), d)
              then Some(Listed(s[d].includes, name) + [|s|])
              else FindInclude(s, x, other))
      && FindInclude(t, d, name) == Some(Listed(s[d].includes, name) + [|s|])
  {
    WithIncludeKeeps(s, d, name);
    var t := WithInclude(s, d, name);
    UnchangedValuesStay(s, t);
    UnchangedSectionsStay(s, t);
    forall x: nat, other: string | x < |s|
      ensures FindInclude(t, x, other) ==
        if other == name && Reaches(Chain(s, x), Including(s, name), d)
        then Some(Listed(s[d].includes, name) + [|s|])
        else FindInclude(s, x, other)
    {
      IncludeFoundAfter(s, d, name, x, other);
    }
    ReachesUp(s, d, Including(s, name), d);
  }

  lemma SetFilenameIsSeen(s: Store, d: nat, filename: string)
    requires In(s, d)
    ensures var t := Apply(s, d, SetFilename(filename));
      && Kept(s, t) && |t| == |s| && ValuesStay(s, t) && SectionsStay(s, t) && IncludesStay(s, t)
      && forall x: nat :: x < |s| ==> Filename(t, x) == if x == d then filename else Filename(s, x)
  {
    WithFilenameKeeps(s, d, filename);
    var t := Apply(s, d, SetFilename(filename));
    UnchangedValuesStay(s, t);
    UnchangedSectionsStay(s, t);
    UnchangedIncludesStay(s, t);
  }
}

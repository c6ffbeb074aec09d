/**
 Template dictionaries as they are changed in place: the lookups' loops, the setters, and
 MakeCopy (template_dictionary.cc).  Methods take the dictionary they are called on by its
 place in the store.
 */
module DictionaryMethods {
  import opened Wrappers
  import opened Dictionaries
  import opened DictionaryLikeness
  import opened DictionaryChanges
  import opened DictionaryCopies

  class TemplateDictionaries {
    var store: Store
    var globals: map<string, string>

    ghost predicate Valid()
      reads this
    {
      StoreOk(store)
    }

    /** SetupGlobalDict. */
    constructor ()
      ensures Valid() && store == [] && globals == map["BI_SPACE" := " ", "BI_NEWLINE" := "\n"]
    {
      store, globals := [], map["BI_SPACE" := " ", "BI_NEWLINE" := "\n"];
    }

    /** A new top-level dictionary. */
    method Create() returns (d: nat)
      requires Valid()
      modifies this`store
      ensures Valid() && d == |old(store)| && store == old(store) + [EmptyDict(None, d)]
    {
      d := |store|;
      store := store + [EmptyDict(None, d)];
      forall i | 0 <= i < |store| ensures DictOk(store, i) {
        if i < d {
          SameShapeOk(old(store), store, i);
        }
      }
    }

    method SetGlobalValue(name: string, value: string)
      modifies this`globals
      ensures globals == old(globals)[name := value]
      ensures forall d, n :: In(store, d) ==>
        Dictionaries.GetValue(store, globals, d, n) ==
          if n == name && !HasValue(store, d, n) then value else Dictionaries.GetValue(store, old(globals), d, n)
    {
      globals := globals[name := value];
    }

    // ----- lookups -----

    method GetValue(d: nat, name: string) returns (v: string)
      requires Valid() && d < |store|
      ensures v == Dictionaries.GetValue(store, globals, d, name)
    {
      var at: Option<nat> := Some(d);
      while at.Some?
        invariant at.Some? ==> at.value <= d
        invariant FindVariable(store, d, name) == if at.Some? then FindVariable(store, at.value, name) else None
        decreases if at.Some? then at.value + 1 else 0
      {
        assert DictOk(store, at.value);
        if name in store[at.value].vars {
          return store[at.value].vars[name];
        }
        at := store[at.value].parent;
      }
      assert DictOk(store, d) && DictOk(store, store[d].owner);
      var global := store[store[d].owner].global;
      if global.Some? && name in store[global.value].vars {
        return store[global.value].vars[name];
      }
      if name in globals {
        return globals[name];
      }
      return "";
    }

    method IsHiddenSection(d: nat, name: string) returns (hidden: bool)
      requires Valid() && d < |store|
      ensures hidden == Dictionaries.IsHiddenSection(store, d, name)
    {
      var at: Option<nat> := Some(d);
      while at.Some?
        invariant at.Some? ==> at.value <= d
        invariant SectionHolder(store, d, name) == if at.Some? then SectionHolder(store, at.value, name) else None
        decreases if at.Some? then at.value + 1 else 0
      {
        assert DictOk(store, at.value);
        if name in store[at.value].sections {
          return false;
        }
        at := store[at.value].parent;
      }
      assert DictOk(store, d) && DictOk(store, store[d].owner);
      var global := store[store[d].owner].global;
      return !(global.Some? && name in store[global.value].sections);
    }

    method IsHiddenTemplate(d: nat, name: string) returns (hidden: bool)
      requires Valid() && d < |store|
      ensures hidden == Dictionaries.IsHiddenTemplate(store, d, name)
    {
      var at: Option<nat> := Some(d);
      while at.Some?
        invariant at.Some? ==> at.value <= d
        invariant IncludeHolder(store, d, name) == if at.Some? then IncludeHolder(store, at.value, name) else None
        decreases if at.Some? then at.value + 1 else 0
      {
        assert DictOk(store, at.value);
        if name in store[at.value].includes {
          return false;
        }
        at := store[at.value].parent;
      }
      return true;
    }

    method CreateSectionIterator(d: nat, name: string) returns (ds: seq<nat>)
      requires Valid() && d < |store| && !Dictionaries.IsHiddenSection(store, d, name)
      ensures Some(ds) == FindSection(store, d, name)
    {
      var at: Option<nat> := Some(d);
      while at.Some?
        invariant at.Some? ==> at.value <= d
        invariant SectionHolder(store, d, name) == if at.Some? then SectionHolder(store, at.value, name) else None
        decreases if at.Some? then at.value + 1 else 0
      {
        assert DictOk(store, at.value);
        if name in store[at.value].sections {
          return store[at.value].sections[name];
        }
        at := store[at.value].parent;
      }
      assert DictOk(store, d) && DictOk(store, store[d].owner);
      return store[store[store[d].owner].global.value].sections[name];
    }

    method CreateTemplateIterator(d: nat, name: string) returns (ds: seq<nat>)
      requires Valid() && d < |store| && !Dictionaries.IsHiddenTemplate(store, d, name)
      ensures Some(ds) == FindInclude(store, d, name)
    {
      var at: nat := d;
      while name !in store[at].includes
        invariant at <= d
        invariant IncludeHolder(store, d, name) == IncludeHolder(store, at, name)
        decreases at
      {
        assert DictOk(store, at);
        at := store[at].parent.value;
      }
      return store[at].includes[name];
    }

    // ----- setters -----

    method SetValue(d: nat, name: string, value: string)
      requires Valid() && d < |store|
      modifies this`store
      ensures Valid() && store == Apply(old(store), d, Change.SetValue(name, value))
    {
      ChangeKeeps(store, d, Change.SetValue(name, value));
      store := store[d := store[d].(vars := store[d].vars[name := value])];
    }

    method LazyCreateTemplateGlobalDict(o: nat) returns (g: nat)
      requires Valid() && o < |store| && store[o].owner == o
      modifies this`store
      ensures Valid() && store == WithGlobal(old(store), o)
      ensures store[o].global == Some(g) && g < |store| && store[g].owner == o
    {
      WithGlobalKeeps(store, o);
      if store[o].global == None {
        store := store[o := store[o].(global := Some(|store|))] + [EmptyDict(Some(o), o)];
      }
      g := store[o].global.value;
    }

    method SetTemplateGlobalValue(d: nat, name: string, value: string)
      requires Valid() && d < |store|
      modifies this`store
      ensures Valid() && store == Apply(old(store), d, Change.SetTemplateGlobalValue(name, value))
    {
      assert DictOk(store, d);
      var g := LazyCreateTemplateGlobalDict(store[d].owner);
      SetValue(g, name, value);
    }

    method AddSectionDictionary(d: nat, name: string) returns (sub: nat)
      requires Valid() && d < |store|
      modifies this`store
      ensures Valid() && store == Apply(old(store), d, Change.AddSectionDictionary(name))
      ensures sub == |old(store)| && sub < |store| && store[sub].owner == old(store)[d].owner
    {
      ChangeKeeps(store, d, Change.AddSectionDictionary(name));
      sub := |store|;
      var dicts := if name in store[d].sections then store[d].sections[name] else [];
      var empty := EmptyDict(Some(d), store[d].owner);
      store := store[d := store[d].(sections := store[d].sections[name := dicts + [sub]])] + [empty];
    }

    method ShowSection(d: nat, name: string)
      requires Valid() && d < |store|
      modifies this`store
      ensures Valid() && store == Apply(old(store), d, Change.ShowSection(name))
    {
      if name !in store[d].sections {
        var sub := AddSectionDictionary(d, name);
      }
    }

    method ShowTemplateGlobalSection(d: nat, name: string)
      requires Valid() && d < |store|
      modifies this`store
      ensures Valid() && store == Apply(old(store), d, Change.ShowTemplateGlobalSection(name))
    {
      assert DictOk(store, d);
      var g := LazyCreateTemplateGlobalDict(store[d].owner);
      ShowSection(g, name);
    }

    method SetValueAndShowSection(d: nat, name: string, value: string, section: string)
      requires Valid() && d < |store|
      modifies this`store
      ensures Valid() && store == Apply(old(store), d, Change.SetValueAndShowSection(name, value, section))
    {
      if |value| == 0 {
        return;
      }
      var sub := AddSectionDictionary(d, section);
      SetValue(sub, name, value);
    }

    method AddIncludeDictionary(d: nat, name: string) returns (sub: nat)
      requires Valid() && d < |store|
      modifies this`store
      ensures Valid() && store == Apply(old(store), d, Change.AddIncludeDictionary(name))
      ensures sub == |old(store)| && sub < |store| && store[sub].owner == old(store)[d].owner
    {
      ChangeKeeps(store, d, Change.AddIncludeDictionary(name));
      sub := |store|;
      var dicts := if name in store[d].includes then store[d].includes[name] else [];
      var empty := EmptyDict(None, store[d].owner);
      store := store[d := store[d].(includes := store[d].includes[name := dicts + [sub]])] + [empty];
    }

    method SetFilename(d: nat, filename: string)
      requires Valid() && d < |store|
      modifies this`store
      ensures Valid() && store == Apply(old(store), d, Change.SetFilename(filename))
    {
      ChangeKeeps(store, d, Change.SetFilename(filename));
      store := store[d := store[d].(filename := Some(filename))];
    }

    // ----- MakeCopy -----

    /** The dictionary a copy is made in: owned by itself at the top, by owner below. */
    ghost predicate MayHold(orig: Store, d: nat, parent: Option<nat>, owner: nat)
      requires d < |orig|
      reads this
    {
      orig[d].owner != d ==>
        && owner < |store| && store[owner].owner == owner
        && (parent.Some? ==> parent.value < |store| && store[parent.value].owner == owner)
    }

    method InternalMakeCopy(d: nat, parent: Option<nat>, owner: nat, ghost orig: Store) returns (b: nat)
      requires Valid() && In(orig, d) && orig <= store && MayHold(orig, d, parent, owner)
      modifies this`store
      ensures Valid() && b == |old(store)| < |store| && old(store) <= store
      ensures TreeOf(orig, d) == TreeOf(store, b)
      ensures store[b].owner == (if orig[d].owner == d then b else owner)
      ensures store[b].parent == (if orig[d].owner == d then None else parent)
      decreases |orig| - d, 2
    {
      b := |store|;
      if store[d].owner == d {
        NewDictOk(store, None, b);
        store := store + [EmptyDict(None, b)];
      } else {
        NewDictOk(store, parent, owner);
        store := store + [EmptyDict(parent, owner)];
      }
      ghost var s0 := store;
      CopyVariables(d, b, orig);
      CopyGlobal(d, b, orig);
      ghost var s2 := store;
      CopySections(d, b, orig);
      GlobalKept(orig, d, s2, b, store);
      ghost var s3 := store;
      CopyIncludes(d, b, orig);
      GlobalKept(orig, d, s3, b, store);
      SectionsKept(orig, d, s3, b, store);
      ghost var s4 := store;
      var filename := if store[d].filename == None then "" else store[d].filename.value;
      FileRest(store, b, store[b].(filename := Some(filename)));
      store := store[b := store[b].(filename := Some(filename))];
      CopyIsDone(orig, d, s4, b, store);
    }

    method CopyVariables(d: nat, b: nat, ghost orig: Store)
      requires Building(orig, store, b) && d < |orig| && store[b].vars == map[]
      modifies this`store
      ensures Grown(old(store), store, b) && store[b] == old(store)[b].(vars := orig[d].vars)
    {
      var keys := store[d].vars.Keys;
      while keys != {}
        invariant Building(orig, store, b) && Grown(old(store), store, b) && keys <= orig[d].vars.Keys
        invariant store[b] == old(store)[b].(vars := store[b].vars)
        invariant store[b].vars.Keys == orig[d].vars.Keys - keys
        invariant forall k :: k in store[b].vars ==> store[b].vars[k] == orig[d].vars[k]
        decreases keys
      {
        var k :| k in keys;
        ghost var s := store;
        FileRest(store, b, store[b].(vars := store[b].vars[k := store[d].vars[k]]));
        store := store[b := store[b].(vars := store[b].vars[k := store[d].vars[k]])];
        keys := keys - {k};
      }
    }

    method CopyList(ds: seq<nat>, parent: Option<nat>, owner: nat, ghost d: nat, ghost orig: Store)
      returns (es: seq<nat>)
      requires Valid() && In(orig, d) && orig <= store && (exists p :: Children(orig, d, ds, p))
      requires owner < |store| && store[owner].owner == owner
      requires parent.Some? ==> parent.value < |store| && store[parent.value].owner == owner
      modifies this`store
      ensures Valid() && CopiedList(orig, ds, old(store), store, es, parent, owner)
      decreases |orig| - d, 0
    {
      es := [];
      ghost var p :| Children(orig, d, ds, p);
      for i := 0 to |ds|
        invariant Valid() && CopiedList(orig, ds[..i], old(store), store, es, parent, owner)
      {
        assert DictOk(orig, d);
        ghost var s := store;
        var e := InternalMakeCopy(ds[i], parent, owner, orig);
        CopiedOne(orig, ds[..i], old(store), s, es, parent, owner, ds[i], store, e);
        assert ds[..i] + [ds[i]] == ds[..i + 1];
        es := es + [e];
      }
      assert ds[..|ds|] == ds;
    }

    method CopyGlobal(d: nat, b: nat, ghost orig: Store)
      requires Building(orig, store, b) && d < |orig| && store[b].global == None
      requires orig[d].owner == d ==> store[b].owner == b
      modifies this`store
      ensures Grown(old(store), store, b) && store[b] == old(store)[b].(global := store[b].global)
      ensures SameGlobals(orig, orig[d].global, store, store[b].global)
      decreases |orig| - d, 1
    {
      assert DictOk(orig, d);
      if store[d].global.Some? {
        assert DictOk(store, b);
        var g := InternalMakeCopy(store[d].global.value, Some(b), store[b].owner, orig);
        ghost var s := store;
        FileRest(store, b, store[b].(global := Some(g)));
        store := store[b := store[b].(global := Some(g))];
        TreeFrame(s, store, g);
      }
    }

    method CopySections(d: nat, b: nat, ghost orig: Store)
      requires Building(orig, store, b) && d < |orig| && store[b].sections == map[]
      modifies this`store
      ensures Grown(old(store), store, b) && store[b] == old(store)[b].(sections := store[b].sections)
      ensures SameMaps(orig, orig[d].sections, store, store[b].sections)
      decreases |orig| - d, 1
    {
      var keys := store[d].sections.Keys;
      ghost var done: set<string> := {};
      while keys != {}
        invariant Building(orig, store, b) && Grown(old(store), store, b)
        invariant keys + done == orig[d].sections.Keys && keys !! done
        invariant store[b] == old(store)[b].(sections := store[b].sections)
        invariant SameMaps(orig, Only(orig[d].sections, done), store, store[b].sections)
        decreases keys
      {
        var name :| name in keys;
        ghost var s := store;
        assert DictOk(orig, d) && DictOk(store, b) && DictOk(store, store[b].owner);
        assert Children(orig, d, orig[d].sections[name], Some(d));
        var es := CopyList(store[d].sections[name], Some(b), store[b].owner, d, orig);
        SectionFiled(orig, d, b, done, name, s, store, es);
        store := store[b := store[b].(sections := store[b].sections[name := es])];
        keys, done := keys - {name}, done + {name};
      }
      assert Only(orig[d].sections, done) == orig[d].sections;
    }

    method CopyIncludes(d: nat, b: nat, ghost orig: Store)
      requires Building(orig, store, b) && d < |orig| && store[b].includes == map[]
      modifies this`store
      ensures Grown(old(store), store, b) && store[b] == old(store)[b].(includes := store[b].includes)
      ensures SameMaps(orig, orig[d].includes, store, store[b].includes)
      decreases |orig| - d, 1
    {
      var keys := store[d].includes.Keys;
      ghost var done: set<string> := {};
      while keys != {}
        invariant Building(orig, store, b) && Grown(old(store), store, b)
        invariant keys + done == orig[d].includes.Keys && keys !! done
        invariant store[b] == old(store)[b].(includes := store[b].includes)
        invariant SameMaps(orig, Only(orig[d].includes, done), store, store[b].includes)
        decreases keys
      {
        var name :| name in keys;
        ghost var s := store;
        assert DictOk(orig, d) && DictOk(store, b) && DictOk(store, store[b].owner);
        assert Children(orig, d, orig[d].includes[name], None);
        var es := CopyList(store[d].includes[name], None, store[b].owner, d, orig);
        IncludeFiled(orig, d, b, done, name, s, store, es);
        store := store[b := store[b].(includes := store[b].includes[name := es])];
        keys, done := keys - {name}, done + {name};
      }
      assert Only(orig[d].includes, done) == orig[d].includes;
    }

    /** None when d is not a top-level dictionary. */
    method MakeCopy(d: nat) returns (copy: Option<nat>)
      requires Valid() && d < |store|
      modifies this`store
      ensures Valid() && old(store) <= store
      ensures copy.None? <==> old(store)[d].owner != d
      ensures copy.None? ==> store == old(store)
      ensures copy.Some? ==>
        && copy.value == |old(store)| < |store| && store[copy.value].owner == copy.value
        && Alike(old(store), d, store, copy.value) && Alike(store, d, store, copy.value)
    {
      if store[d].owner != d {
        return None;
      }
      ghost var s := store;
      var b := InternalMakeCopy(d, None, d, s);
      assert DictOk(store, d) && DictOk(store, b);
      RootsAlike(s, d, store, b);
      TreeFrame(s, store, d);
      RootsAlike(store, d, store, b);
      return Some(b);
    }
  }
}

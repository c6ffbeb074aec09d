module CacheEffects {
  // What each critical section of the template cache does (template_cache.cc), told by what a
  // lookup finds: the entry under each key, the references handed out, the templates destroyed.

  import opened Wrappers
  import opened TemplateCaches
  import opened FrozenCaches

  /** The entry under a key. */
  function Under(es: seq<Entry>, key: Key): Option<Entry> {
    if es == [] then None else if es[0].key == key then Some(es[0]) else Under(es[1..], key)
  }

  ghost predicate DistinctKeys(es: seq<Entry>) {
    forall i, j :: 0 <= i < j < |es| ==> es[i].key != es[j].key
  }

  /** Only cache i is another one, and of it no more than the entries and the calls. */
  ghost predicate OnlyCache(w: World, w1: World, i: nat) {
    && i < |w.caches| == |w1.caches| && w1.caches[i].frozen == w.caches[i].frozen
    && forall j :: 0 <= j < |w.caches| && j != i ==> w1.caches[j] == w.caches[j]
  }

  /** Every key but one finds what it found. */
  ghost predicate OthersStay(es: seq<Entry>, es1: seq<Entry>, key: Key) {
    forall other :: other != key ==> Under(es1, other) == Under(es, other)
  }

  lemma {:induction false} UnderIs(es: seq<Entry>, key: Key)
    ensures Under(es, key) == (if IndexOf(es, key) < |es| then Some(es[IndexOf(es, key)]) else None)
  {
    if es != [] && es[0].key != key {
      UnderIs(es[1..], key);
    }
  }

  lemma {:induction false} UnderUpdate(es: seq<Entry>, k: nat, e: Entry, key: Key)
    requires k < |es| && e.key == es[k].key
    ensures Under(es[k := e], key) == if IndexOf(es, key) == k then Some(e) else Under(es, key)
  {
    if k == 0 {
      assert es[0 := e][1..] == es[1..];
    } else {
      assert es[k := e][1..] == es[1..][k - 1 := e];
      UnderUpdate(es[1..], k - 1, e, key);
    }
  }

  lemma {:induction false} UnderAppend(es: seq<Entry>, e: Entry, key: Key)
    ensures Under(es + [e], key) ==
      if Under(es, key).Some? then Under(es, key) else if e.key == key then Some(e) else None
  {
    if es != [] {
      assert (es + [e])[0] == es[0] && (es + [e])[1..] == es[1..] + [e];
      UnderAppend(es[1..], e, key);
    } else {
      assert [] + [e] == [e] && [e][1..] == [];
    }
  }

  lemma {:induction false} UnderNotNamed(es: seq<Entry>, name: nat, key: Key)
    ensures Under(NotNamed(es, name), key) == if key.name == name then None else Under(es, key)
  {
    if es != [] {
      UnderNotNamed(es[1..], name, key);
      if es[0].key.name != name {
        assert ([es[0]] + NotNamed(es[1..], name))[1..] == NotNamed(es[1..], name);
      }
    }
  }

  // ----- Delete -----

  /** How many entries of the name hold a template. */
  function NamedCount(es: seq<Entry>, name: nat, t: Tpl): nat {
    if es == [] then 0
    else (if es[0].key.name == name && es[0].tpl == t then 1 else 0) + NamedCount(es[1..], name, t)
  }

  lemma {:induction false} NamedCountIs(es: seq<Entry>, name: nat, t: Tpl)
    ensures EntryCount(Named(es, name), t) == NamedCount(es, name, t)
  {
    if es != [] {
      NamedCountIs(es[1..], name, t);
      assert ([es[0]] + Named(es[1..], name))[1..] == Named(es[1..], name);
    }
  }

  /** A frozen cache is left alone; else no key of the name finds anything, and all others do as before. */
  lemma DeleteErases(w: World, i: nat, name: nat)
    requires Inv(w) && i < |w.caches|
    ensures Next(w, Delete(i, name)).Ok?
    ensures w.caches[i].frozen ==> Next(w, Delete(i, name)).value == w
    ensures !w.caches[i].frozen ==>
      var w1 := Next(w, Delete(i, name)).value;
      && OnlyCache(w, w1, i) && w1.caches[i].calls == w.caches[i].calls && w1.held == w.held
      && forall key :: Under(w1.caches[i].entries, key) ==
           if key.name == name then None else Under(w.caches[i].entries, key)
  {
    NextKeepsInv(w, Delete(i, name));
    if !w.caches[i].frozen {
      hide Next;
      var w1 := Next(w, Delete(i, name)).value;
      DeleteIs(w, i, name);
      forall key ensures Under(w1.caches[i].entries, key) ==
        if key.name == name then None else Under(w.caches[i].entries, key)
      {
        UnderNotNamed(w.caches[i].entries, name, key);
      }
    }
  }

  lemma DeleteIs(w: World, i: nat, name: nat)
    requires i < |w.caches| && !w.caches[i].frozen && Next(w, Delete(i, name)).Ok?
    ensures var w1 := Next(w, Delete(i, name)).value;
      && w1.held == w.held && w1.heap.created == w.heap.created
      && w1.caches == w.caches[i := w.caches[i].(entries := NotNamed(w.caches[i].entries, name))]
  {
    hide IndexOf;
    DecRefEntriesCreatesNothing(w.heap, Named(w.caches[i].entries, name));
  }

  lemma {:induction false} DecRefEntriesCreatesNothing(h: Heap, es: seq<Entry>)
    requires DecRefEntries(h, es).Ok?
    ensures DecRefEntries(h, es).value.created == h.created && DecRefEntries(h, es).value.next == h.next
    decreases |es|
  {
    if es != [] {
      DecRefEntriesCreatesNothing(DecRefN(h, es[0].tpl, 1).value, es[1..]);
    }
  }

  /** A template is destroyed when nobody owns it. */
  lemma DestroyedIff(w: World, t: Tpl)
    requires Inv(w) && t in w.heap.created
    ensures t in w.heap.deleted <==> Owned(w, t) == 0
  {
    assert Ref(w.heap, t) == Owned(w, t);
  }

  /** Delete destroys just the templates that only entries of the name owned. */
  lemma DeleteDestroys(w: World, i: nat, name: nat, t: Tpl)
    requires Inv(w) && i < |w.caches| && !w.caches[i].frozen && t in w.heap.created
    ensures Next(w, Delete(i, name)).Ok?
    ensures t in Next(w, Delete(i, name)).value.heap.deleted <==>
      Owned(w, t) == NamedCount(w.caches[i].entries, name, t)
  {
    NextKeepsInv(w, Delete(i, name));
    DeleteIs(w, i, name);
    hide Next;
    var w1 := Next(w, Delete(i, name)).value;
    var c1 := w.caches[i].(entries := NotNamed(w.caches[i].entries, name));
    WithCacheOwned(w, i, w1.heap, c1);
    assert WithCache(w, i, w1.heap, c1) == w1;
    EntryCountPartition(w.caches[i].entries, name, t);
    NamedCountIs(w.caches[i].entries, name, t);
    DestroyedIff(w1, t);
  }

  // ----- lookups -----

  /** The template has to be loaded: no entry yet, or one marked whose file has changed. */
  predicate LoadsAnew(found: Option<Entry>, d: Disk) {
    found.None? || (found.value.shouldReload && found.value.fileBased && d.changed)
  }

  /** The entry a lookup leaves under its key. */
  function EntryAfter(found: Option<Entry>, key: Key, d: Disk, next: nat): Entry {
    if LoadsAnew(found, d) then Entry(key, Tpl(next, d.ready), false, true)
    else found.value.(shouldReload := false)
  }

  lemma EntriesAfterLookup(h: Heap, c: Cache, key: Key, d: Disk)
    requires GetTemplateLocked(h, c, key, d).Ok? && (Under(c.entries, key).Some? || !c.frozen)
    ensures var (h1, c1, found) := GetTemplateLocked(h, c, key, d).value;
      var e := EntryAfter(Under(c.entries, key), key, d, h.next);
      && c1.frozen == c.frozen && c1.calls == c.calls
      && Under(c1.entries, key) == Some(e) && OthersStay(c.entries, c1.entries, key)
      && found == (if e.tpl.ready then Some(e.tpl) else None)
      && h1.created == h.created + (if LoadsAnew(Under(c.entries, key), d) then {e.tpl} else {})
  {
    UnderIs(c.entries, key);
    var es := c.entries;
    var k := IndexOf(es, key);
    var (h1, c1, found) := GetTemplateLocked(h, c, key, d).value;
    var e := EntryAfter(Under(es, key), key, d, h.next);
    if k < |es| {
      assert c1.entries == es[k := e];
    } else {
      assert c1.entries == es + [e];
    }
    forall other ensures Under(c1.entries, other) == if other == key then Some(e) else Under(es, other) {
      if k < |es| {
        UnderIs(es, other);
        UnderUpdate(es, k, e, other);
      } else {
        UnderAppend(es, e, other);
      }
    }
  }

  /** A key that a frozen cache does not hold. */
  lemma MissIsFrozen(h: Heap, c: Cache, key: Key, d: Disk)
    requires Under(c.entries, key).None? && c.frozen
    ensures GetTemplateLocked(h, c, key, d) == Ok((h, c, None))
  {
    UnderIs(c.entries, key);
  }

  lemma LookupIs(w: World, i: nat, key: Key, d: Disk, use: Use)
    requires i < |w.caches| && Next(w, Lookup(i, key, d, use)).Ok?
    ensures var (h1, c1, found) := GetTemplateLocked(w.heap, w.caches[i], key, d).value;
      var w1 := Next(w, Lookup(i, key, d, use)).value;
      && w1.heap.created == h1.created
      && w1.held == w.held + (if found.Some? && use.Pin? then multiset{found.value} else multiset{})
      && w1.caches ==
           w.caches[i := if found.Some? && use.Return? then c1.(calls := AddCall(c1.calls, found.value)) else c1]
  {
    hide GetTemplateLocked;
    var (h1, c1, found) := GetTemplateLocked(w.heap, w.caches[i], key, d).value;
    if found.Some? && !use.JustLoad? {
      assert IncRef(h1, found.value).Ok?;
    }
  }

  /**
   LoadTemplate, GetTemplate and the start of an expansion: nothing in a frozen cache without the
   key; else the entry under the key is there, unmarked, and loaded anew when it has to be, the
   others are as they were, and a ready template is handed out with a reference to give back.
   */
  lemma LookupFinds(w: World, i: nat, key: Key, d: Disk, use: Use)
    requires Inv(w) && i < |w.caches|
    ensures Next(w, Lookup(i, key, d, use)).Ok?
    ensures var w1 := Next(w, Lookup(i, key, d, use)).value;
      var before := Under(w.caches[i].entries, key);
      if before.None? && w.caches[i].frozen then w1 == w
      else
        var e := EntryAfter(before, key, d, w.heap.next);
        && OnlyCache(w, w1, i)
        && Under(w1.caches[i].entries, key) == Some(e) && OthersStay(w.caches[i].entries, w1.caches[i].entries, key)
        && (forall t :: CallCount(w1.caches[i].calls, t) ==
              CallCount(w.caches[i].calls, t) + (if e.tpl.ready && use.Return? && t == e.tpl then 1 else 0))
        && w1.held == w.held + (if e.tpl.ready && use.Pin? then multiset{e.tpl} else multiset{})
        && w1.heap.created == w.heap.created + (if LoadsAnew(before, d) then {e.tpl} else {})
  {
    var c := w.caches[i];
    NextKeepsInv(w, Lookup(i, key, d, use));
    LookupKeepsInv(w, Lookup(i, key, d, use));
    if Under(c.entries, key).None? && c.frozen {
      MissIsFrozen(w.heap, c, key, d);
      assert w.caches[i := c] == w.caches;
    } else {
      EntriesAfterLookup(w.heap, c, key, d);
      LookupIs(w, i, key, d, use);
      hide Next, GetTemplateLocked, Inv, Under, OthersStay;
      var e := EntryAfter(Under(c.entries, key), key, d, w.heap.next);
      forall t ensures CallCount(AddCall(c.calls, e.tpl), t) == CallCount(c.calls, t) + (if t == e.tpl then 1 else 0) {
        AddCallCount(c.calls, e.tpl, t);
      }
    }
  }

  /** After Delete the next lookup of a key of the name loads it anew. */
  lemma DeletedLoadsAnew(w: World, i: nat, key: Key, d: Disk, use: Use)
    requires Inv(w) && i < |w.caches| && !w.caches[i].frozen
    ensures Next(w, Delete(i, key.name)).Ok?
    ensures var w1 := Next(w, Delete(i, key.name)).value;
      && i < |w1.caches| && Next(w1, Lookup(i, key, d, use)).Ok?
      && var w2 := Next(w1, Lookup(i, key, d, use)).value;
        && i < |w2.caches| && Tpl(w1.heap.next, d.ready) !in w1.heap.created
        && Under(w2.caches[i].entries, key) == Some(Entry(key, Tpl(w1.heap.next, d.ready), false, true))
  {
    DeleteErases(w, i, key.name);
    NextKeepsInv(w, Delete(i, key.name));
    hide Next;
    LookupFinds(Next(w, Delete(i, key.name)).value, i, key, d, use);
  }

  /** A frozen cache's entry may be expanded without a lookup that loads. */
  lemma PinFrozenFinds(w: World, i: nat, key: Key)
    requires Inv(w) && i < |w.caches|
    ensures Next(w, PinFrozen(i, key)).Ok?
    ensures var w1 := Next(w, PinFrozen(i, key)).value;
      var e := Under(w.caches[i].entries, key);
      && w1.caches == w.caches && w1.heap.created == w.heap.created
      && w1.held == w.held + if w.caches[i].frozen && e.Some? then multiset{e.value.tpl} else multiset{}
  {
    NextKeepsInv(w, PinFrozen(i, key));
    UnderIs(w.caches[i].entries, key);
  }

  /** Giving a reference back changes no cache, and destroys the template when it was the last. */
  lemma UnpinGivesBack(w: World, t: Tpl)
    requires Inv(w) && t in w.held
    ensures Next(w, Unpin(t)).Ok?
    ensures var w1 := Next(w, Unpin(t)).value;
      && w1.caches == w.caches && w1.held == w.held - multiset{t}
      && (t in w1.heap.deleted <==> Owned(w, t) == 1)
  {
    NextKeepsInv(w, Unpin(t));
    var w1 := Next(w, Unpin(t)).value;
    assert Ref(w.heap, t) == Owned(w, t);
    assert t in w1.heap.created && Owned(w1, t) == Owned(w, t) - 1;
    DestroyedIff(w1, t);
  }

  // ----- StringToTemplateCache -----

  /** The parsed string becomes the entry, unless a ready template has the key: then it is destroyed. */
  lemma InsertStringReplaces(w: World, i: nat, key: Key)
    requires Inv(w) && i < |w.caches|
    ensures Next(w, CheckString(i, key)) == Ok(w) && Next(w, InsertString(i, key)).Ok?
    ensures var w1 := Next(w, InsertString(i, key)).value;
      var found, t := Under(w.caches[i].entries, key), Tpl(w.heap.next, true);
      && w1.held == w.held && w1.heap.created == w.heap.created + {t} && t !in w.heap.created
      && if found.Some? && found.value.tpl.ready then w1.caches == w.caches && t in w1.heap.deleted
         else
           && OnlyCache(w, w1, i) && w1.caches[i].calls == w.caches[i].calls
           && Under(w1.caches[i].entries, key) == Some(Entry(key, t, false, false))
           && OthersStay(w.caches[i].entries, w1.caches[i].entries, key)
  {
    NextKeepsInv(w, CheckString(i, key));
    NextKeepsInv(w, InsertString(i, key));
    InsertStringIs(w, i, key);
    var es := w.caches[i].entries;
    UnderIs(es, key);
    StoredUnder(es, Entry(key, Tpl(w.heap.next, true), false, false));
    assert Tpl(w.heap.next, true) !in w.heap.created;
  }

  /** The entries with e put under its key. */
  function Stored(es: seq<Entry>, e: Entry): seq<Entry> {
    var k := IndexOf(es, e.key);
    if k < |es| then es[k := e] else es + [e]
  }

  lemma StoredUnder(es: seq<Entry>, e: Entry)
    ensures Under(Stored(es, e), e.key) == Some(e) && OthersStay(es, Stored(es, e), e.key)
  {
    forall other ensures Under(Stored(es, e), other) == if other == e.key then Some(e) else Under(es, other) {
      UnderIs(es, other);
      if IndexOf(es, e.key) < |es| {
        UnderUpdate(es, IndexOf(es, e.key), e, other);
      } else {
        UnderAppend(es, e, other);
      }
    }
  }

  lemma InsertStringIs(w: World, i: nat, key: Key)
    requires i < |w.caches| && Next(w, InsertString(i, key)).Ok?
    ensures var w1 := Next(w, InsertString(i, key)).value;
      var es, t := w.caches[i].entries, Tpl(w.heap.next, true);
      var k := IndexOf(es, key);
      && w1.held == w.held && w1.heap.created == w.heap.created + {t}
      && if k < |es| && es[k].tpl.ready then w1.caches == w.caches && t in w1.heap.deleted
         else
           w1.caches == w.caches[i := w.caches[i].(entries := Stored(es, Entry(key, t, false, false)))]
  {
    hide IndexOf;
  }

  // ----- ClearCache and DoneWithGetTemplatePtrs -----

  /** The swap empties and unfreezes the cache; the running clear owns what the entries owned. */
  lemma DetachEmpties(w: World, i: nat)
    requires Inv(w) && i < |w.caches|
    ensures Next(w, Detach(i)).Ok?
    ensures var w1 := Next(w, Detach(i)).value;
      && i < |w1.caches| && w1.caches == w.caches[i := Cache([], false, w.caches[i].calls)] && w1.heap == w.heap
      && forall t :: w1.held[t] == w.held[t] + EntryCount(w.caches[i].entries, t)
  {
    forall t ensures Next(w, Detach(i)).value.held[t] == w.held[t] + EntryCount(w.caches[i].entries, t) {
      TemplatesCount(w.caches[i].entries, t);
    }
  }

  /** The callers of GetTemplate own nothing any more. */
  lemma DoneGivesBack(w: World, i: nat)
    requires Inv(w) && i < |w.caches|
    ensures Next(w, DoneWithGetTemplatePtrs(i)).Ok?
    ensures var w1 := Next(w, DoneWithGetTemplatePtrs(i)).value;
      && OnlyCache(w, w1, i) && w1.caches[i].entries == w.caches[i].entries && w1.caches[i].calls == []
      && w1.held == w.held
      && forall t :: Ref(w1.heap, t) == Ref(w.heap, t) - CallCount(w.caches[i].calls, t)
  {
    var c := w.caches[i];
    NextKeepsInv(w, DoneWithGetTemplatePtrs(i));
    hide Inv;
    var w1 := Next(w, DoneWithGetTemplatePtrs(i)).value;
    DoneCounts(w, i);
  }

  lemma DoneCounts(w: World, i: nat)
    requires Inv(w) && i < |w.caches| && DecRefCalls(w.heap, w.caches[i].calls).Ok?
    ensures forall t ::
      Ref(DecRefCalls(w.heap, w.caches[i].calls).value, t) == Ref(w.heap, t) - CallCount(w.caches[i].calls, t)
  {
    var c := w.caches[i];
    WithCacheOwned(w, i, w.heap, c);
    forall t ensures CallCount(c.calls, t) <= Ref(w.heap, t) {
      assert CacheCount(c, t) <= Owned(w, t);
    }
    DecRefCallsEffect(w.heap, c.calls);
  }

  // ----- ReloadAllIfChanged -----

  /** e1 is what a reload makes of the entry e, when templates are numbered from next on. */
  predicate Reloaded(e: Entry, e1: Entry, immediate: bool, d: Disk, next: nat) {
    if !immediate then e1 == e.(shouldReload := true)
    else if e.fileBased && d.changed then
      e1 == Entry(e.key, e1.tpl, false, true) && e1.tpl.ready == d.ready && e1.tpl.id >= next
    else e1 == e.(shouldReload := false)
  }

  lemma RefreshMarked(h: Heap, c: Cache, k: nat, d: Disk)
    requires k < |c.entries| && c.entries[k].shouldReload && Refresh(h, c, k, d).Ok?
    ensures var (h1, c1, _) := Refresh(h, c, k, d).value;
      && c1 == c.(entries := c.entries[k := c1.entries[k]]) && |c1.entries| == |c.entries|
      && Reloaded(c.entries[k], c1.entries[k], true, d, h.next)
      && h.next <= h1.next
      && (c1.entries[k].tpl == c.entries[k].tpl || c1.entries[k].tpl.id < h1.next)
  {
  }

  lemma {:induction false} ReloadsEach(h: Heap, c: Cache, i: nat, immediate: bool, disk: Key -> Disk)
    requires ReloadFrom(h, c, i, immediate, disk).Ok?
    ensures var (h1, c1) := ReloadFrom(h, c, i, immediate, disk).value;
      && c1 == c.(entries := c1.entries) && |c1.entries| == |c.entries| && h.next <= h1.next
      && (!immediate ==> h1 == h)
      && (forall j :: 0 <= j < i && j < |c.entries| ==> c1.entries[j] == c.entries[j])
      && (forall j :: i <= j < |c.entries| ==>
            Reloaded(c.entries[j], c1.entries[j], immediate, disk(c.entries[j].key), h.next))
    decreases |c.entries| - i
  {
    hide Refresh;
    if i < |c.entries| {
      var e := c.entries[i].(shouldReload := true);
      var c1 := c.(entries := c.entries[i := e]);
      if immediate {
        RefreshMarked(h, c1, i, disk(e.key));
        var (h2, c2, _) := Refresh(h, c1, i, disk(e.key)).value;
        ReloadsEach(h2, c2, i + 1, immediate, disk);
      } else {
        ReloadsEach(h, c1, i + 1, immediate, disk);
      }
    }
  }

  lemma {:induction false} UnderSameKeys(es: seq<Entry>, es1: seq<Entry>, key: Key)
    requires |es1| == |es| && forall j :: 0 <= j < |es| ==> es1[j].key == es[j].key
    ensures IndexOf(es1, key) == IndexOf(es, key)
    ensures Under(es1, key) == if IndexOf(es, key) < |es| then Some(es1[IndexOf(es, key)]) else None
  {
    if es != [] {
      UnderSameKeys(es[1..], es1[1..], key);
    }
  }

  /**
   Nothing in a frozen cache.  A lazy reload marks every entry; an immediate one leaves none
   marked, and loads those anew whose files have changed, each as the file now reads.
   */
  lemma ReloadAllFinds(w: World, i: nat, immediate: bool, disk: Key -> Disk)
    requires Inv(w) && i < |w.caches|
    ensures Next(w, ReloadAll(i, immediate, disk)).Ok?
    ensures w.caches[i].frozen ==> Next(w, ReloadAll(i, immediate, disk)).value == w
    ensures !w.caches[i].frozen ==>
      var w1 := Next(w, ReloadAll(i, immediate, disk)).value;
      && OnlyCache(w, w1, i) && w1.caches[i].calls == w.caches[i].calls && w1.held == w.held
      && (!immediate ==> w1.heap == w.heap)
      && forall key ::
           var e, e1 := Under(w.caches[i].entries, key), Under(w1.caches[i].entries, key);
           (e.None? <==> e1.None?) &&
           (e.Some? ==> Reloaded(e.value, e1.value, immediate, disk(key), w.heap.next))
  {
    NextKeepsInv(w, ReloadAll(i, immediate, disk));
    if !w.caches[i].frozen {
      hide Inv;
      var c := w.caches[i];
      var (h1, c1) := ReloadFrom(w.heap, c, 0, immediate, disk).value;
      ReloadsEach(w.heap, c, 0, immediate, disk);
      hide ReloadFrom, Reloaded;
      forall key
        ensures var e, e1 := Under(c.entries, key), Under(c1.entries, key);
          (e.None? <==> e1.None?) &&
          (e.Some? ==> Reloaded(e.value, e1.value, immediate, disk(key), w.heap.next))
      {
        KeysAfterReload(c.entries, c1.entries, immediate, disk, w.heap.next);
        UnderIs(c.entries, key);
        UnderSameKeys(c.entries, c1.entries, key);
      }
    }
  }

  lemma KeysAfterReload(es: seq<Entry>, es1: seq<Entry>, immediate: bool, disk: Key -> Disk, next: nat)
    requires |es1| == |es|
    requires forall j :: 0 <= j < |es| ==> Reloaded(es[j], es1[j], immediate, disk(es[j].key), next)
    ensures forall j :: 0 <= j < |es| ==> es1[j].key == es[j].key
  {
  }

  // ----- new caches and freezing -----

  /** A new cache is empty, a clone holds what its original holds, and neither is frozen. */
  lemma NewCachesFind(w: World, i: nat)
    requires Inv(w)
    ensures Next(w, NewCache).Ok? && Next(w, NewCache).value == w.(caches := w.caches + [Cache([], false, [])])
    ensures i < |w.caches| ==>
      && Next(w, Clone(i)).Ok?
      && var w1 := Next(w, Clone(i)).value;
        && w1.caches == w.caches + [Cache(w.caches[i].entries, false, [])] && w1.held == w.held
        && forall t :: Ref(w1.heap, t) == Ref(w.heap, t) + EntryCount(w.caches[i].entries, t)
  {
    if i < |w.caches| {
      NextKeepsInv(w, Clone(i));
      var es := w.caches[i].entries;
      WithCacheOwned(w, i, w.heap, w.caches[i]);
      forall t ensures EntryCount(es, t) <= Ref(w.heap, t) {
        assert CacheCount(w.caches[i], t) <= Owned(w, t);
      }
      IncRefEntriesEffect(w.heap, es);
    }
  }

  lemma SetFrozenFreezes(w: World, i: nat)
    requires Inv(w) && i < |w.caches|
    ensures Next(w, SetFrozen(i)).Ok?
    ensures var w1 := Next(w, SetFrozen(i)).value;
      w1 == w.(caches := w1.caches) && w1.caches == w.caches[i := w.caches[i].(frozen := true)]
  {
  }

  // ----- whole operations -----

  /** The string becomes the entry unless the cache is frozen, has a ready template or it does not parse. */
  lemma StringIsFound(w: World, i: nat, key: Key, parses: bool)
    requires Inv(w) && i < |w.caches|
    ensures Perform(w, StringToTemplateCache(i, key, parses)).Ok?
    ensures var w1 := Perform(w, StringToTemplateCache(i, key, parses)).value;
      var c, found := w.caches[i], Under(w.caches[i].entries, key);
      if c.frozen || (found.Some? && found.value.tpl.ready) || !parses then w1 == w
      else
        && OnlyCache(w, w1, i)
        && Under(w1.caches[i].entries, key) == Some(Entry(key, Tpl(w.heap.next, true), false, false))
        && OthersStay(c.entries, w1.caches[i].entries, key)
  {
    hide Next;
    InsertStringReplaces(w, i, key);
    UnderIs(w.caches[i].entries, key);
  }

  /** Freezing brings every entry up to date first, and then nothing is marked. */
  lemma FrozenIsUpToDate(w: World, i: nat, disk: Key -> Disk)
    requires Inv(w) && i < |w.caches|
    ensures Perform(w, Freeze(i, disk)).Ok?
    ensures w.caches[i].frozen ==> Perform(w, Freeze(i, disk)).value == w
    ensures !w.caches[i].frozen ==>
      var w1 := Perform(w, Freeze(i, disk)).value;
      && i < |w1.caches| == |w.caches| && w1.caches[i].frozen && w1.caches[i].calls == w.caches[i].calls
      && (forall j :: 0 <= j < |w.caches| && j != i ==> w1.caches[j] == w.caches[j])
      && forall key ::
           var e, e1 := Under(w.caches[i].entries, key), Under(w1.caches[i].entries, key);
           (e.None? <==> e1.None?) && (e.Some? ==> Reloaded(e.value, e1.value, true, disk(key), w.heap.next))
  {
    if !w.caches[i].frozen {
      ReloadAllFinds(w, i, true, disk);
      NextKeepsInv(w, ReloadAll(i, true, disk));
      var w1 := Next(w, ReloadAll(i, true, disk)).value;
      SetFrozenFreezes(w1, i);
      hide Next, Inv, Reloaded, Under;
    }
  }

  // ----- one entry to a key -----

  ghost predicate AllDistinct(w: World) {
    forall i :: 0 <= i < |w.caches| ==> DistinctKeys(w.caches[i].entries)
  }

  lemma {:induction false} NotNamedDistinct(es: seq<Entry>, name: nat)
    requires DistinctKeys(es)
    ensures DistinctKeys(NotNamed(es, name))
  {
    if es != [] {
      var rest := NotNamed(es[1..], name);
      NotNamedDistinct(es[1..], name);
      forall j | 0 <= j < |rest| ensures rest[j].key != es[0].key {
        assert rest[j] in rest;
        var k :| 0 <= k < |es[1..]| && es[1..][k] == rest[j];
        assert es[k + 1] == rest[j];
      }
    }
  }

  lemma AppendDistinct(es: seq<Entry>, e: Entry)
    requires DistinctKeys(es) && IndexOf(es, e.key) == |es|
    ensures DistinctKeys(es + [e])
  {
  }

  lemma LookupKeepsDistinct(h: Heap, c: Cache, key: Key, d: Disk)
    requires DistinctKeys(c.entries) && GetTemplateLocked(h, c, key, d).Ok?
    ensures DistinctKeys(GetTemplateLocked(h, c, key, d).value.1.entries)
  {
    var k := IndexOf(c.entries, key);
    var c1 := GetTemplateLocked(h, c, key, d).value.1;
    if k < |c.entries| {
      assert forall j :: 0 <= j < |c.entries| ==> c1.entries[j].key == c.entries[j].key;
    } else if !c.frozen {
      assert c1.entries == c.entries + [c1.entries[k]];
      AppendDistinct(c.entries, c1.entries[k]);
    }
  }

  lemma SameKeysDistinct(es: seq<Entry>, es1: seq<Entry>)
    requires DistinctKeys(es) && |es1| == |es| && forall j :: 0 <= j < |es| ==> es1[j].key == es[j].key
    ensures DistinctKeys(es1)
  {
  }

  lemma InsertKeepsDistinct(w: World, s: Step)
    requires AllDistinct(w) && Enabled(w, s) && s.InsertString? && Next(w, s).Ok?
    ensures AllDistinct(Next(w, s).value)
  {
    hide DecRefN;
    var es := w.caches[s.c].entries;
    assert DistinctKeys(es);
    var k := IndexOf(es, s.key);
    var e := Entry(s.key, Tpl(w.heap.next, true), false, false);
    if k == |es| {
      AppendDistinct(es, e);
    } else {
      SameKeysDistinct(es, es[k := e]);
    }
  }

  lemma ReloadKeepsDistinct(w: World, s: Step)
    requires AllDistinct(w) && Enabled(w, s) && s.ReloadAll? && Next(w, s).Ok?
    ensures AllDistinct(Next(w, s).value)
  {
    var c := w.caches[s.c];
    if !c.frozen {
      var (h1, c1) := ReloadFrom(w.heap, c, 0, s.immediate, s.disk).value;
      ReloadsEach(w.heap, c, 0, s.immediate, s.disk);
      KeysAfterReload(c.entries, c1.entries, s.immediate, s.disk, w.heap.next);
      SameKeysDistinct(c.entries, c1.entries);
    }
  }

  lemma NextKeepsDistinct(w: World, s: Step)
    requires AllDistinct(w) && Enabled(w, s) && Next(w, s).Ok?
    ensures AllDistinct(Next(w, s).value)
  {
    hide GetTemplateLocked, ReloadFrom, DecRefEntries, DecRefCalls, IncRefEntries, DecRefN, IncRef, DistinctKeys;
    match s
    case Lookup(i, key, d, _) => LookupKeepsDistinct(w.heap, w.caches[i], key, d);
    case InsertString(_, _) => InsertKeepsDistinct(w, s);
    case ReloadAll(_, _, _) => ReloadKeepsDistinct(w, s);
    case Delete(i, name) => NotNamedDistinct(w.caches[i].entries, name);
    case NewCache => NothingDistinct();
    case Detach(_) => NothingDistinct();
    case _ =>
  }

  lemma NothingDistinct()
    ensures DistinctKeys([])
  {
  }

  lemma {:induction false} RunKeepsDistinct(w: World, steps: seq<Step>)
    requires AllDistinct(w) && Run(w, steps).Ok?
    ensures AllDistinct(Run(w, steps).value)
    decreases |steps|
  {
    hide Next, AllDistinct;
    if steps != [] {
      if Enabled(w, steps[0]) {
        NextKeepsDistinct(w, steps[0]);
        RunKeepsDistinct(Next(w, steps[0]).value, steps[1..]);
      } else {
        RunKeepsDistinct(w, steps[1..]);
      }
    }
  }

  lemma {:induction false} DistinctIsFound(es: seq<Entry>, k: nat)
    requires DistinctKeys(es) && k < |es|
    ensures Under(es, es[k].key) == Some(es[k])
  {
    if k > 0 {
      DistinctIsFound(es[1..], k - 1);
    }
  }

  /** However the sections interleave, a key has one entry, and it is the one found under it. */
  lemma EveryEntryIsFound(steps: seq<Step>, i: nat, e: Entry)
    requires Run(Initial, steps).Ok?
    requires i < |Run(Initial, steps).value.caches| && e in Run(Initial, steps).value.caches[i].entries
    ensures Under(Run(Initial, steps).value.caches[i].entries, e.key) == Some(e)
  {
    RunKeepsDistinct(Initial, steps);
    var es := Run(Initial, steps).value.caches[i].entries;
    var k :| 0 <= k < |es| && es[k] == e;
    DistinctIsFound(es, k);
  }
}

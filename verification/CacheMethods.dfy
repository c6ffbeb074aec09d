/**
 The methods of TemplateCache and RefcountedTemplate with their loops (template_cache.cc).

 One object stands for the shared heap of templates and the caches over it.  The source's
 assertions are the preconditions of IncRef, DecRefN and State, so verifying a method shows
 that none of them fails.  Each method is proved equal to its step in TemplateCaches.
 */
module CacheMethods {
  import opened Wrappers
  import opened TemplateCaches

  class CacheSystem {
    var heap: Heap
    var caches: seq<Cache>
    ghost var held: multiset<Tpl>

    constructor ()
      ensures Abs() == Initial && Valid()
    {
      heap, caches, held := Heap(map[], multiset{}, {}, 0), [], multiset{};
    }

    ghost function Abs(): World
      reads this
    {
      World(heap, caches, held)
    }

    ghost predicate Valid()
      reads this
    {
      Inv(Abs())
    }

    method IncRef(t: Tpl)
      requires t in heap.refs && heap.refs[t] > 0
      modifies this`heap
      ensures TemplateCaches.IncRef(old(heap), t) == Ok(heap)
    {
      heap := heap.(refs := heap.refs[t := heap.refs[t] + 1]);
    }

    method DecRefN(t: Tpl, n: nat)
      requires t in heap.refs && heap.refs[t] >= n
      modifies this`heap
      ensures TemplateCaches.DecRefN(old(heap), t, n) == Ok(heap)
    {
      var left := heap.refs[t] - n;
      if left == 0 {
        heap := heap.(refs := heap.refs - {t}, deleted := heap.deleted + multiset{t});
      } else {
        heap := heap.(refs := heap.refs[t := left]);
      }
    }

    method State(t: Tpl) returns (ready: bool)
      requires t in heap.refs
      ensures ready == t.ready
    {
      ready := t.ready;
    }

    /** Erases the first entry with the key. */
    static function Erase(es: seq<Entry>, key: Key): seq<Entry> {
      var i := IndexOf(es, key);
      if i < |es| then es[..i] + es[i + 1..] else es
    }

    static lemma {:induction false} EraseNamed(es: seq<Entry>, name: nat)
      requires Named(es, name) != []
      ensures var es1 := Erase(es, Named(es, name)[0].key);
        Named(es1, name) == Named(es, name)[1..] && NotNamed(es1, name) == NotNamed(es, name)
    {
      NamedHead(es, name);
      var key := Named(es, name)[0].key;
      var rest := Erase(es[1..], key);
      if es[0].key.name == name {
        assert Erase(es, key) == es[1..];
      } else {
        EraseNamed(es[1..], name);
        assert Erase(es, key) == [es[0]] + rest;
      }
    }

    static lemma {:induction false} NamedHead(es: seq<Entry>, name: nat)
      requires Named(es, name) != []
      ensures Named(es, name)[0].key.name == name
    {
      if es[0].key.name != name {
        NamedHead(es[1..], name);
      }
    }

    /** Delete's first loop: gives up the named entries and lists their keys. */
    method ReleaseNamed(es: seq<Entry>, name: nat) returns (toErase: seq<Key>)
      requires DecRefEntries(heap, Named(es, name)).Ok?
      modifies this`heap
      ensures DecRefEntries(old(heap), Named(es, name)) == Ok(heap)
      ensures |toErase| == |Named(es, name)|
      ensures forall j :: 0 <= j < |toErase| ==> toErase[j] == Named(es, name)[j].key
    {
      toErase := [];
      for i := 0 to |es|
        invariant DecRefEntries(old(heap), Named(es, name)) == DecRefEntries(heap, Named(es[i..], name))
        invariant |toErase| == |Named(es[..i], name)|
        invariant forall j :: 0 <= j < |toErase| ==> toErase[j] == Named(es[..i], name)[j].key
      {
        assert es[i..][1..] == es[i + 1..];
        NamedSplit(es, i, name);
        if es[i].key.name == name {
          DecRefN(es[i].tpl, 1);
          toErase := toErase + [es[i].key];
        }
      }
      assert es[..|es|] == es;
    }

    /** Delete's second loop. */
    static method EraseAll(es: seq<Entry>, name: nat, toErase: seq<Key>) returns (left: seq<Entry>)
      requires |toErase| == |Named(es, name)|
      requires forall j :: 0 <= j < |toErase| ==> toErase[j] == Named(es, name)[j].key
      ensures left == NotNamed(es, name)
    {
      left := es;
      for j := 0 to |toErase|
        invariant Named(left, name) == Named(es, name)[j..] && NotNamed(left, name) == NotNamed(es, name)
      {
        EraseNamed(left, name);
        left := Erase(left, toErase[j]);
      }
      NothingNamed(left, name);
    }

    static lemma {:induction false} NamedAny(es: seq<Entry>, name: nat)
      ensures Named(es, name) != [] <==> exists e :: e in es && e.key.name == name
    {
      if es != [] {
        NamedAny(es[1..], name);
        assert es[0] in es && forall e :: e in es <==> e == es[0] || e in es[1..];
      }
    }

    method Delete(c: nat, name: nat) returns (deleted: bool)
      requires Valid() && c < |caches|
      modifies this
      ensures Next(old(Abs()), Step.Delete(c, name)) == Ok(Abs()) && Valid()
      ensures deleted == (!old(caches[c].frozen) && exists e :: e in old(caches[c].entries) && e.key.name == name)
    {
      if caches[c].frozen {
        return false;
      }
      NamedAny(caches[c].entries, name);
      NextKeepsInv(Abs(), Step.Delete(c, name));
      var toErase := ReleaseNamed(caches[c].entries, name);
      var left := EraseAll(caches[c].entries, name, toErase);
      caches := caches[c := caches[c].(entries := left)];
      deleted := toErase != [];
    }

    static lemma {:induction false} NamedSplit(es: seq<Entry>, i: nat, name: nat)
      requires i < |es|
      ensures Named(es[..i + 1], name) == Named(es[..i], name) + (if es[i].key.name == name then [es[i]] else [])
    {
      if i == 0 {
        assert es[..1] == [es[0]];
      } else {
        NamedSplit(es[1..], i - 1, name);
        assert es[..i + 1][1..] == es[1..][..i] && es[..i][1..] == es[1..][..i - 1];
      }
    }

    static lemma {:induction false} NothingNamed(es: seq<Entry>, name: nat)
      requires Named(es, name) == []
      ensures NotNamed(es, name) == es
    {
      if es != [] {
        NothingNamed(es[1..], name);
      }
    }

    method DecRefAllCalls(calls: seq<Calls>)
      requires DecRefCalls(heap, calls).Ok?
      modifies this`heap
      ensures DecRefCalls(old(heap), calls) == Ok(heap)
    {
      for i := 0 to |calls|
        invariant DecRefCalls(old(heap), calls) == DecRefCalls(heap, calls[i..])
      {
        assert calls[i..][1..] == calls[i + 1..];
        DecRefN(calls[i].tpl, calls[i].count);
      }
    }

    method DoneWithGetTemplatePtrs(c: nat)
      requires Valid() && c < |caches|
      modifies this
      ensures Next(old(Abs()), Step.DoneWithGetTemplatePtrs(c)) == Ok(Abs()) && Valid()
    {
      NextKeepsInv(Abs(), Step.DoneWithGetTemplatePtrs(c));
      DecRefAllCalls(caches[c].calls);
      caches := caches[c := caches[c].(calls := [])];
    }

    /** ClearCache's loop over the map it swapped out. */
    method DecRefAll(tmp: seq<Entry>)
      requires DecRefEntries(heap, tmp).Ok?
      modifies this`heap
      ensures DecRefEntries(old(heap), tmp) == Ok(heap)
    {
      for i := 0 to |tmp|
        invariant DecRefEntries(old(heap), tmp) == DecRefEntries(heap, tmp[i..])
      {
        assert tmp[i..][1..] == tmp[i + 1..];
        DecRefN(tmp[i].tpl, 1);
      }
    }

    static lemma DrainedWorldIsSafe(w: World, es: seq<Entry>)
      requires Inv(w) && Templates(es) <= w.held
      ensures DecRefEntries(w.heap, es).Ok?
      ensures Inv(w.(heap := DecRefEntries(w.heap, es).value, held := w.held - Templates(es)))
    {
      forall t ensures EntryCount(es, t) == Templates(es)[t] <= Owned(w, t) {
        TemplatesCount(es, t);
      }
      DecRefEntriesEffect(w.heap, es);
    }

    static lemma ClearedWorldIsSafe(w: World, c: nat)
      requires Inv(w) && c < |w.caches|
      ensures DecRefEntries(w.heap, w.caches[c].entries).Ok?
      ensures var h1 := DecRefCalls(DecRefEntries(w.heap, w.caches[c].entries).value, w.caches[c].calls);
        h1.Ok? && Inv(WithCache(w, c, h1.value, Cache([], false, [])))
    {
      NextKeepsInv(w, Detach(c));
      var w1 := Next(w, Detach(c)).value;
      DrainedWorldIsSafe(w1, w.caches[c].entries);
      assert w1.held - Templates(w.caches[c].entries) == w.held;
      var w2 := w1.(heap := DecRefEntries(w.heap, w.caches[c].entries).value, held := w.held);
      NextKeepsInv(w2, Step.DoneWithGetTemplatePtrs(c));
      assert w2.caches[c := Cache([], false, [])] == w.caches[c := Cache([], false, [])];
    }

    /** The whole of ClearCache with nobody in between: every reference of the cache is given up. */
    method ClearCache(c: nat)
      requires Valid() && c < |caches|
      modifies this
      ensures Valid() && held == old(held) && caches == old(caches)[c := Cache([], false, [])]
      ensures DecRefEntries(old(heap), old(caches)[c].entries).Ok?
      ensures DecRefCalls(DecRefEntries(old(heap), old(caches)[c].entries).value, old(caches)[c].calls) == Ok(heap)
    {
      ClearedWorldIsSafe(Abs(), c);
      var tmp := caches[c].entries;
      caches := caches[c := caches[c].(entries := [], frozen := false)];
      DecRefAll(tmp);
      DecRefAllCalls(caches[c].calls);
      caches := caches[c := caches[c].(calls := [])];
      assert caches == old(caches)[c := Cache([], false, [])];
    }

    method Clone(c: nat) returns (copy: nat)
      requires Valid() && c < |caches|
      modifies this
      ensures Next(old(Abs()), Step.Clone(c)) == Ok(Abs()) && Valid()
      ensures copy == |old(caches)| && caches[copy] == Cache(old(caches)[c].entries, false, [])
    {
      ghost var h0 := heap;
      NextKeepsInv(Abs(), Step.Clone(c));
      var es := caches[c].entries;
      copy := |caches|;
      for i := 0 to |es|
        invariant IncRefEntries(h0, es) == IncRefEntries(heap, es[i..])
        invariant caches == old(caches) && held == old(held)
      {
        assert es[i..][1..] == es[i + 1..];
        IncRef(es[i].tpl);
      }
      caches := caches + [Cache(es, false, [])];
    }

    /** GetTemplateLocked once the entry is in the map at position i. */
    method RefreshEntry(h: Heap, cache: Cache, i: nat, d: Disk) returns (cache1: Cache, found: Option<Tpl>)
      requires heap == h && i < |cache.entries| && Refresh(h, cache, i, d).Ok?
      modifies this`heap
      ensures Refresh(h, cache, i, d) == Ok((heap, cache1, found))
    {
      var e := cache.entries[i];
      if e.shouldReload {
        if e.fileBased && d.changed {
          var (h1, t) := NewTemplate(heap, d.ready);
          heap := h1;
          DecRefN(e.tpl, 1);
          e := Entry(e.key, t, false, true);
        }
        e := e.(shouldReload := false);
      }
      cache1 := cache.(entries := cache.entries[i := e]);
      var ready := State(e.tpl);
      found := if ready then Some(e.tpl) else None;
    }

    method GetTemplateLocked(c: nat, key: Key, d: Disk) returns (found: Option<Tpl>)
      requires c < |caches| && TemplateCaches.GetTemplateLocked(heap, caches[c], key, d).Ok?
      modifies this`heap, this`caches
      ensures |caches| == |old(caches)| && caches == old(caches)[c := caches[c]]
      ensures TemplateCaches.GetTemplateLocked(old(heap), old(caches)[c], key, d) == Ok((heap, caches[c], found))
    {
      var cache := caches[c];
      var i := IndexOf(cache.entries, key);
      if i == |cache.entries| {
        if cache.frozen {
          return None;
        }
        var (h1, t) := NewTemplate(heap, d.ready);
        heap := h1;
        cache := cache.(entries := cache.entries + [Entry(key, t, false, true)]);
      }
      cache, found := RefreshEntry(heap, cache, i, d);
      caches := caches[c := cache];
    }

    method LoadTemplate(c: nat, key: Key, d: Disk) returns (loaded: bool)
      requires Valid() && c < |caches|
      modifies this
      ensures Next(old(Abs()), Lookup(c, key, d, JustLoad)) == Ok(Abs()) && Valid()
      ensures loaded == TemplateCaches.GetTemplateLocked(old(heap), old(caches)[c], key, d).value.2.Some?
    {
      NextKeepsInv(Abs(), Lookup(c, key, d, JustLoad));
      var found := GetTemplateLocked(c, key, d);
      loaded := found.Some?;
    }

    /** GetTemplate: the caller keeps the pointer until DoneWithGetTemplatePtrs. */
    method GetTemplate(c: nat, key: Key, d: Disk) returns (found: Option<Tpl>)
      requires Valid() && c < |caches|
      modifies this
      ensures Next(old(Abs()), Lookup(c, key, d, Return)) == Ok(Abs()) && Valid()
      ensures found == TemplateCaches.GetTemplateLocked(old(heap), old(caches)[c], key, d).value.2
      ensures found.Some? ==> found.value in heap.refs
    {
      NextKeepsInv(Abs(), Lookup(c, key, d, Return));
      found := GetTemplateLocked(c, key, d);
      if found.Some? {
        IncRef(found.value);
        var c1 := caches[c].(calls := AddCall(caches[c].calls, found.value));
        caches := caches[c := c1];
        assert caches == old(caches)[c := c1];
      }
    }

    /** The locked part of ExpandWithData and ExpandLocked before the template is expanded. */
    method PinForExpand(c: nat, key: Key, d: Disk) returns (found: Option<Tpl>)
      requires Valid() && c < |caches|
      modifies this
      ensures Next(old(Abs()), Lookup(c, key, d, Pin)) == Ok(Abs()) && Valid()
      ensures held == old(held) + (if found.Some? then multiset{found.value} else multiset{})
    {
      NextKeepsInv(Abs(), Lookup(c, key, d, Pin));
      found := GetTemplateLocked(c, key, d);
      if found.Some? {
        IncRef(found.value);
        held := held + multiset{found.value};
      }
    }

    /** The locked part after the expansion. */
    method UnpinAfterExpand(t: Tpl)
      requires Valid() && t in held
      modifies this
      ensures Next(old(Abs()), Unpin(t)) == Ok(Abs()) && Valid()
    {
      NextKeepsInv(Abs(), Unpin(t));
      DecRefN(t, 1);
      held := held - multiset{t};
    }

    /** The second locked part of StringToTemplateCache, for content that parsed. */
    method InsertParsed(c: nat, key: Key) returns (inserted: bool)
      requires Valid() && c < |caches|
      modifies this
      ensures Next(old(Abs()), InsertString(c, key)) == Ok(Abs()) && Valid()
      ensures inserted <==> caches != old(caches)
    {
      NextKeepsInv(Abs(), InsertString(c, key));
      var es := caches[c].entries;
      var k := IndexOf(es, key);
      var (h1, t) := NewTemplate(heap, true);
      heap := h1;
      var e := Entry(key, t, false, false);
      if k < |es| {
        var ready := State(es[k].tpl);
        if ready {
          DecRefN(t, 1);
          return false;
        }
        DecRefN(es[k].tpl, 1);
        caches := caches[c := caches[c].(entries := es[k := e])];
        assert caches[c].entries[k] != old(caches)[c].entries[k];
      } else {
        caches := caches[c := caches[c].(entries := es + [e])];
        assert |caches[c].entries| != |old(caches)[c].entries|;
      }
      inserted := true;
    }

    method ReloadAllIfChanged(c: nat, immediate: bool, disk: Key -> Disk)
      requires Valid() && c < |caches|
      modifies this
      ensures Next(old(Abs()), ReloadAll(c, immediate, disk)) == Ok(Abs()) && Valid()
    {
      NextKeepsInv(Abs(), ReloadAll(c, immediate, disk));
      if caches[c].frozen {
        return;
      }
      ghost var h0 := heap;
      var cache := caches[c];
      ghost var c0 := cache;
      var i := 0;
      while i < |cache.entries|
        invariant 0 <= i <= |cache.entries|
        invariant caches == old(caches) && held == old(held)
        invariant ReloadFrom(h0, c0, 0, immediate, disk) == ReloadFrom(heap, cache, i, immediate, disk)
        decreases |cache.entries| - i
      {
        cache := cache.(entries := cache.entries[i := cache.entries[i].(shouldReload := true)]);
        if immediate {
          var found;
          cache, found := RefreshEntry(heap, cache, i, disk(cache.entries[i].key));
        }
        i := i + 1;
      }
      caches := caches[c := cache];
    }
  }
}

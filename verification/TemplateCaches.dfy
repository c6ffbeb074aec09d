module TemplateCaches {
  // Reference counting in the template cache (template_cache.cc).
  //
  // Templates are shared by any number of caches (Clone), by expansions in flight and by the
  // raw pointers GetTemplate hands out.  One count per template tracks them all.  Each step
  // below is one critical section of a cache's mutex; any interleaving of steps is allowed.
  // A failed assertion in RefcountedTemplate, or any use of a freed template, is a Fault.

  import opened Wrappers

  /** A RefcountedTemplate's identity, with the parse state fixed when it was loaded. */
  datatype Tpl = Tpl(id: nat, ready: bool)

  datatype Key = Key(name: nat, strip: nat)

  datatype Entry = Entry(key: Key, tpl: Tpl, shouldReload: bool, fileBased: bool)

  /** One entry of get_template_calls_: how often GetTemplate returned tpl. */
  datatype Calls = Calls(tpl: Tpl, count: nat)

  datatype Cache = Cache(entries: seq<Entry>, frozen: bool, calls: seq<Calls>)

  /** refs holds refcount_ of every live template; deleted counts runs of the destructor. */
  datatype Heap = Heap(refs: map<Tpl, nat>, deleted: multiset<Tpl>, created: set<Tpl>, next: nat)

  /** held: references owned by running operations rather than by a cache. */
  datatype World = World(heap: Heap, caches: seq<Cache>, held: multiset<Tpl>)

  /** What the file system would answer: has the file changed, and does it load as TS_READY? */
  datatype Disk = Disk(changed: bool, ready: bool)

  // ----- RefcountedTemplate -----

  function NewTemplate(h: Heap, ready: bool): (r: (Heap, Tpl)) {
    var t := Tpl(h.next, ready);
    (Heap(h.refs[t := 1], h.deleted, h.created + {t}, h.next + 1), t)
  }

  function IncRef(h: Heap, t: Tpl): Checked<Heap> {
    if t in h.refs && h.refs[t] > 0 then Ok(h.(refs := h.refs[t := h.refs[t] + 1])) else Fault
  }

  function DecRefN(h: Heap, t: Tpl, n: nat): Checked<Heap> {
    if t !in h.refs || h.refs[t] < n then Fault
    else if h.refs[t] == n then Ok(h.(refs := h.refs - {t}, deleted := h.deleted + multiset{t}))
    else Ok(h.(refs := h.refs[t := h.refs[t] - n]))
  }

  /** tpl()->state() == TS_READY, read through the refcounted pointer. */
  function IsReady(h: Heap, t: Tpl): Checked<bool> {
    if t in h.refs then Ok(t.ready) else Fault
  }

  function DecRefEntries(h: Heap, es: seq<Entry>): Checked<Heap>
    decreases |es|
  {
    if es == [] then Ok(h)
    else
      var h1 :- DecRefN(h, es[0].tpl, 1);
      DecRefEntries(h1, es[1..])
  }

  function IncRefEntries(h: Heap, es: seq<Entry>): Checked<Heap>
    decreases |es|
  {
    if es == [] then Ok(h)
    else
      var h1 :- IncRef(h, es[0].tpl);
      IncRefEntries(h1, es[1..])
  }

  function DecRefCalls(h: Heap, cs: seq<Calls>): Checked<Heap>
    decreases |cs|
  {
    if cs == [] then Ok(h)
    else
      var h1 :- DecRefN(h, cs[0].tpl, cs[0].count);
      DecRefCalls(h1, cs[1..])
  }

  // ----- TemplateCache -----

  function IndexOf(es: seq<Entry>, key: Key): (i: nat)
    ensures i <= |es|
    ensures i < |es| ==> es[i].key == key
    ensures forall j :: 0 <= j < i ==> es[j].key != key
  {
    if es == [] then 0 else if es[0].key == key then 0 else 1 + IndexOf(es[1..], key)
  }

  function AddCall(cs: seq<Calls>, t: Tpl): seq<Calls> {
    if cs == [] then [Calls(t, 1)]
    else if cs[0].tpl == t then [Calls(t, cs[0].count + 1)] + cs[1..]
    else [cs[0]] + AddCall(cs[1..], t)
  }

  function Named(es: seq<Entry>, name: nat): seq<Entry> {
    if es == [] then []
    else if es[0].key.name == name then [es[0]] + Named(es[1..], name)
    else Named(es[1..], name)
  }

  function NotNamed(es: seq<Entry>, name: nat): (r: seq<Entry>)
    ensures forall e :: e in r <==> e in es && e.key.name != name
  {
    if es == [] then []
    else if es[0].key.name == name then NotNamed(es[1..], name)
    else [es[0]] + NotNamed(es[1..], name)
  }

  /** The templates of a list of entries, as ClearCache's local map owns them. */
  function Templates(es: seq<Entry>): multiset<Tpl> {
    if es == [] then multiset{} else multiset{es[0].tpl} + Templates(es[1..])
  }

  /** The tail of GetTemplateLocked once the entry is in the map at position i. */
  function Refresh(h: Heap, c: Cache, i: nat, d: Disk): Checked<(Heap, Cache, Option<Tpl>)>
    requires i < |c.entries|
  {
    var e := c.entries[i];
    var (h1, e1) :-
      if !e.shouldReload then Ok((h, e))
      else
        var _ :- IsReady(h, e.tpl);
        if e.fileBased && d.changed then
          var (hNew, t) := NewTemplate(h, d.ready);
          var hOld :- DecRefN(hNew, e.tpl, 1);
          Ok((hOld, Entry(e.key, t, false, true)))
        else Ok((h, e.(shouldReload := false)));
    var ready :- IsReady(h1, e1.tpl);
    Ok((h1, c.(entries := c.entries[i := e1]), if ready then Some(e1.tpl) else None))
  }

  function GetTemplateLocked(h: Heap, c: Cache, key: Key, d: Disk): Checked<(Heap, Cache, Option<Tpl>)> {
    var i := IndexOf(c.entries, key);
    if i < |c.entries| then Refresh(h, c, i, d)
    else if c.frozen then Ok((h, c, None))
    else
      var (h1, t) := NewTemplate(h, d.ready);
      Refresh(h1, c.(entries := c.entries + [Entry(key, t, false, true)]), i, d)
  }

  /** ReloadAllIfChanged from entry i on. */
  function ReloadFrom(h: Heap, c: Cache, i: nat, immediate: bool, disk: Key -> Disk): Checked<(Heap, Cache)>
    decreases |c.entries| - i
  {
    if i >= |c.entries| then Ok((h, c))
    else
      var c1 := c.(entries := c.entries[i := c.entries[i].(shouldReload := true)]);
      if !immediate then ReloadFrom(h, c1, i + 1, immediate, disk)
      else
        var _ :- IsReady(h, c1.entries[i].tpl);
        var (h2, c2, _) :- Refresh(h, c1, i, disk(c1.entries[i].key));
        ReloadFrom(h2, c2, i + 1, immediate, disk)
  }

  // ----- critical sections -----

  /** What the caller of GetTemplateLocked does with the template before it unlocks. */
  datatype Use = JustLoad | Return | Pin

  datatype Step =
    | NewCache
    | Lookup(c: nat, key: Key, d: Disk, use: Use)          // LoadTemplate, GetTemplate, Expand*
    | PinFrozen(c: nat, key: Key)                          // ExpandNoLoad, first section
    | Unpin(t: Tpl)                                        // Expand*, last section; ClearCache's loop
    | CheckString(c: nat, key: Key)                        // StringToTemplateCache, first section
    | InsertString(c: nat, key: Key)                       // StringToTemplateCache, second section
    | Delete(c: nat, name: nat)
    | Detach(c: nat)                                       // ClearCache, the swap
    | DoneWithGetTemplatePtrs(c: nat)
    | ReloadAll(c: nat, immediate: bool, disk: Key -> Disk)
    | SetFrozen(c: nat)                                    // Freeze, last section
    | Clone(c: nat)

  /** A step names an existing cache, and Unpin gives up a reference somebody holds. */
  predicate Enabled(w: World, s: Step) {
    match s
    case NewCache => true
    case Unpin(t) => t in w.held
    case _ => s.c < |w.caches|
  }

  function WithCache(w: World, i: nat, h: Heap, c: Cache): World
    requires i < |w.caches|
  {
    w.(heap := h, caches := w.caches[i := c])
  }

  function Next(w: World, s: Step): Checked<World>
    requires Enabled(w, s)
  {
    match s
    case NewCache => Ok(w.(caches := w.caches + [Cache([], false, [])]))
    case Lookup(i, key, d, use) =>
      var (h1, c1, found) :- GetTemplateLocked(w.heap, w.caches[i], key, d);
      if found.None? || use.JustLoad? then Ok(WithCache(w, i, h1, c1))
      else
        var h2 :- IncRef(h1, found.value);
        if use.Return? then Ok(WithCache(w, i, h2, c1.(calls := AddCall(c1.calls, found.value))))
        else Ok(WithCache(w, i, h2, c1).(held := w.held + multiset{found.value}))
    case PinFrozen(i, key) =>
      var es := w.caches[i].entries;
      var k := IndexOf(es, key);
      if !w.caches[i].frozen || k == |es| then Ok(w)
      else
        var h1 :- IncRef(w.heap, es[k].tpl);
        Ok(w.(heap := h1, held := w.held + multiset{es[k].tpl}))
    case Unpin(t) =>
      var h1 :- DecRefN(w.heap, t, 1);
      Ok(w.(heap := h1, held := w.held - multiset{t}))
    case CheckString(i, key) =>
      var es := w.caches[i].entries;
      var k := IndexOf(es, key);
      if w.caches[i].frozen || k == |es| then Ok(w)
      else
        var _ :- IsReady(w.heap, es[k].tpl);
        Ok(w)
    case InsertString(i, key) =>
      var es := w.caches[i].entries;
      var k := IndexOf(es, key);
      var (h1, t) := NewTemplate(w.heap, true);
      var e := Entry(key, t, false, false);
      if k == |es| then Ok(WithCache(w, i, h1, w.caches[i].(entries := es + [e])))
      else
        var ready :- IsReady(h1, es[k].tpl);
        if ready then
          var h2 :- DecRefN(h1, t, 1);
          Ok(w.(heap := h2))
        else
          var h2 :- DecRefN(h1, es[k].tpl, 1);
          Ok(WithCache(w, i, h2, w.caches[i].(entries := es[k := e])))
    case Delete(i, name) =>
      if w.caches[i].frozen then Ok(w)
      else
        var h1 :- DecRefEntries(w.heap, Named(w.caches[i].entries, name));
        Ok(WithCache(w, i, h1, w.caches[i].(entries := NotNamed(w.caches[i].entries, name))))
    case Detach(i) =>
      var c := w.caches[i];
      Ok(WithCache(w, i, w.heap, c.(entries := [], frozen := false)).(held := w.held + Templates(c.entries)))
    case DoneWithGetTemplatePtrs(i) =>
      var h1 :- DecRefCalls(w.heap, w.caches[i].calls);
      Ok(WithCache(w, i, h1, w.caches[i].(calls := [])))
    case ReloadAll(i, immediate, disk) =>
      if w.caches[i].frozen then Ok(w)
      else
        var (h1, c1) :- ReloadFrom(w.heap, w.caches[i], 0, immediate, disk);
        Ok(WithCache(w, i, h1, c1))
    case SetFrozen(i) => Ok(WithCache(w, i, w.heap, w.caches[i].(frozen := true)))
    case Clone(i) =>
      var h1 :- IncRefEntries(w.heap, w.caches[i].entries);
      Ok(w.(heap := h1, caches := w.caches + [Cache(w.caches[i].entries, false, [])]))
  }

  /** Runs the steps in order, passing over those nobody could take. */
  function Run(w: World, steps: seq<Step>): Checked<World>
    decreases |steps|
  {
    if steps == [] then Ok(w)
    else if !Enabled(w, steps[0]) then Run(w, steps[1..])
    else
      var w1 :- Next(w, steps[0]);
      Run(w1, steps[1..])
  }

  const Initial := World(Heap(map[], multiset{}, {}, 0), [], multiset{})

  // ----- who owns references -----

  function Ref(h: Heap, t: Tpl): nat {
    if t in h.refs then h.refs[t] else 0
  }

  function EntryCount(es: seq<Entry>, t: Tpl): nat {
    if es == [] then 0 else (if es[0].tpl == t then 1 else 0) + EntryCount(es[1..], t)
  }

  function CallCount(cs: seq<Calls>, t: Tpl): nat {
    if cs == [] then 0 else (if cs[0].tpl == t then cs[0].count else 0) + CallCount(cs[1..], t)
  }

  function CacheCount(c: Cache, t: Tpl): nat {
    EntryCount(c.entries, t) + CallCount(c.calls, t)
  }

  function AllCount(cs: seq<Cache>, t: Tpl): nat {
    if cs == [] then 0 else CacheCount(cs[0], t) + AllCount(cs[1..], t)
  }

  /** Cache-map entries, plus get_template_calls_ counts, plus references held in flight. */
  function Owned(w: World, t: Tpl): nat {
    AllCount(w.caches, t) + w.held[t]
  }

  /** Every created template is either live with a positive count or was deleted once. */
  ghost predicate HeapOk(h: Heap) {
    && (forall t :: t in h.created ==> t.id < h.next)
    && (forall t :: t in h.refs ==> h.refs[t] > 0 && t in h.created && t !in h.deleted)
    && (forall t :: t in h.deleted ==> t in h.created && h.deleted[t] == 1)
    && (forall t :: t in h.created ==> t in h.refs || t in h.deleted)
  }

  ghost predicate CallsPositive(cs: seq<Calls>) {
    forall j :: 0 <= j < |cs| ==> cs[j].count > 0
  }

  ghost predicate Inv(w: World) {
    && HeapOk(w.heap)
    && (forall t :: Ref(w.heap, t) == Owned(w, t))
    && (forall i :: 0 <= i < |w.caches| ==> CallsPositive(w.caches[i].calls))
  }

  lemma NewTemplateEffect(h: Heap, ready: bool)
    requires HeapOk(h)
    ensures var (h1, t) := NewTemplate(h, ready);
      HeapOk(h1) && forall u :: Ref(h1, u) == Ref(h, u) + (if u == t then 1 else 0)
  {
    assert Tpl(h.next, ready) !in h.created;
  }

  lemma IncRefEffect(h: Heap, t: Tpl)
    requires HeapOk(h) && Ref(h, t) > 0
    ensures IncRef(h, t).Ok? && HeapOk(IncRef(h, t).value)
    ensures forall u :: Ref(IncRef(h, t).value, u) == Ref(h, u) + (if u == t then 1 else 0)
  {
  }

  lemma DecRefEffect(h: Heap, t: Tpl, n: nat)
    requires HeapOk(h) && 0 < n <= Ref(h, t)
    ensures DecRefN(h, t, n).Ok? && HeapOk(DecRefN(h, t, n).value)
    ensures forall u :: Ref(DecRefN(h, t, n).value, u) == Ref(h, u) - (if u == t then n else 0)
  {
  }

  lemma {:induction false} DecRefEntriesEffect(h: Heap, es: seq<Entry>)
    requires HeapOk(h) && forall t :: EntryCount(es, t) <= Ref(h, t)
    ensures DecRefEntries(h, es).Ok? && HeapOk(DecRefEntries(h, es).value)
    ensures forall t :: Ref(DecRefEntries(h, es).value, t) == Ref(h, t) - EntryCount(es, t)
    decreases |es|
  {
    if es != [] {
      var t := es[0].tpl;
      assert EntryCount(es, t) >= 1;
      DecRefEffect(h, t, 1);
      DecRefEntriesEffect(DecRefN(h, t, 1).value, es[1..]);
    }
  }

  lemma {:induction false} IncRefEntriesEffect(h: Heap, es: seq<Entry>)
    requires HeapOk(h) && forall t :: EntryCount(es, t) <= Ref(h, t)
    ensures IncRefEntries(h, es).Ok? && HeapOk(IncRefEntries(h, es).value)
    ensures forall t :: Ref(IncRefEntries(h, es).value, t) == Ref(h, t) + EntryCount(es, t)
    decreases |es|
  {
    if es != [] {
      var t := es[0].tpl;
      assert EntryCount(es, t) >= 1;
      IncRefEffect(h, t);
      IncRefEntriesEffect(IncRef(h, t).value, es[1..]);
    }
  }

  lemma {:induction false} DecRefCallsEffect(h: Heap, cs: seq<Calls>)
    requires HeapOk(h) && CallsPositive(cs) && forall t :: CallCount(cs, t) <= Ref(h, t)
    ensures DecRefCalls(h, cs).Ok? && HeapOk(DecRefCalls(h, cs).value)
    ensures forall t :: Ref(DecRefCalls(h, cs).value, t) == Ref(h, t) - CallCount(cs, t)
    decreases |cs|
  {
    if cs != [] {
      assert CallCount(cs, cs[0].tpl) >= cs[0].count;
      DecRefEffect(h, cs[0].tpl, cs[0].count);
      DecRefCallsEffect(DecRefN(h, cs[0].tpl, cs[0].count).value, cs[1..]);
    }
  }

  // ----- how the owners' counts move -----

  lemma {:induction false} EntryCountAppend(es: seq<Entry>, e: Entry, t: Tpl)
    ensures EntryCount(es + [e], t) == EntryCount(es, t) + (if e.tpl == t then 1 else 0)
  {
    if es != [] {
      EntryCountAppend(es[1..], e, t);
      assert (es + [e])[1..] == es[1..] + [e];
    }
  }

  lemma {:induction false} EntryCountUpdate(es: seq<Entry>, i: nat, e: Entry, t: Tpl)
    requires i < |es|
    ensures es[i].tpl == t ==> EntryCount(es, t) > 0
    ensures EntryCount(es[i := e], t)
         == EntryCount(es, t) - (if es[i].tpl == t then 1 else 0) + (if e.tpl == t then 1 else 0)
  {
    if i > 0 {
      EntryCountUpdate(es[1..], i - 1, e, t);
      assert es[i := e][1..] == es[1..][i - 1 := e];
    } else {
      assert es[0 := e][1..] == es[1..];
    }
  }

  lemma {:induction false} EntryCountPartition(es: seq<Entry>, name: nat, t: Tpl)
    ensures EntryCount(es, t) == EntryCount(Named(es, name), t) + EntryCount(NotNamed(es, name), t)
  {
    if es != [] {
      EntryCountPartition(es[1..], name, t);
      assert ([es[0]] + Named(es[1..], name))[1..] == Named(es[1..], name);
      assert ([es[0]] + NotNamed(es[1..], name))[1..] == NotNamed(es[1..], name);
    }
  }

  lemma {:induction false} TemplatesCount(es: seq<Entry>, t: Tpl)
    ensures Templates(es)[t] == EntryCount(es, t)
  {
    if es != [] {
      TemplatesCount(es[1..], t);
    }
  }

  lemma {:induction false} AddCallCount(cs: seq<Calls>, t: Tpl, u: Tpl)
    requires CallsPositive(cs)
    ensures CallCount(AddCall(cs, t), u) == CallCount(cs, u) + (if u == t then 1 else 0)
    ensures CallsPositive(AddCall(cs, t))
  {
    if cs != [] {
      if cs[0].tpl != t {
        AddCallCount(cs[1..], t, u);
        assert AddCall(cs, t)[1..] == AddCall(cs[1..], t);
      } else {
        assert AddCall(cs, t)[1..] == cs[1..];
      }
    }
  }

  lemma {:induction false} AllCountUpdate(cs: seq<Cache>, i: nat, c: Cache, t: Tpl)
    requires i < |cs|
    ensures CacheCount(cs[i], t) <= AllCount(cs, t)
    ensures AllCount(cs[i := c], t) == AllCount(cs, t) - CacheCount(cs[i], t) + CacheCount(c, t)
  {
    if i > 0 {
      AllCountUpdate(cs[1..], i - 1, c, t);
      assert cs[i := c][1..] == cs[1..][i - 1 := c];
    } else {
      assert cs[0 := c][1..] == cs[1..];
    }
  }

  lemma {:induction false} AllCountAppend(cs: seq<Cache>, c: Cache, t: Tpl)
    ensures AllCount(cs + [c], t) == AllCount(cs, t) + CacheCount(c, t)
  {
    if cs != [] {
      AllCountAppend(cs[1..], c, t);
      assert (cs + [c])[1..] == cs[1..] + [c];
    }
  }

  lemma WithCacheOwned(w: World, i: nat, h: Heap, c: Cache)
    requires i < |w.caches|
    ensures forall t :: CacheCount(w.caches[i], t) <= Owned(w, t)
    ensures forall t :: Owned(WithCache(w, i, h, c), t) == Owned(w, t) - CacheCount(w.caches[i], t) + CacheCount(c, t)
  {
    forall t
      ensures CacheCount(w.caches[i], t) <= Owned(w, t)
      ensures Owned(WithCache(w, i, h, c), t) == Owned(w, t) - CacheCount(w.caches[i], t) + CacheCount(c, t)
    {
      AllCountUpdate(w.caches, i, c, t);
    }
  }

  // ----- the steps keep the counts -----

  /** h1 and c1 moved references only between the heap and the cache itself. */
  ghost predicate Balanced(h: Heap, c: Cache, h1: Heap, c1: Cache) {
    && HeapOk(h1) && c1 == c.(entries := c1.entries)
    && forall t :: Ref(h1, t) - CacheCount(c1, t) == Ref(h, t) - CacheCount(c, t)
  }

  ghost predicate Covered(h: Heap, c: Cache) {
    HeapOk(h) && forall t :: CacheCount(c, t) <= Ref(h, t)
  }

  lemma ReplaceCount(c: Cache, i: nat, e: Entry)
    requires i < |c.entries|
    ensures CacheCount(c, c.entries[i].tpl) > 0
    ensures CacheCount(c.(entries := c.entries[i := e]), e.tpl) > 0
    ensures forall t :: CacheCount(c.(entries := c.entries[i := e]), t)
                     == CacheCount(c, t) - (if c.entries[i].tpl == t then 1 else 0) + (if e.tpl == t then 1 else 0)
  {
    EntryCountUpdate(c.entries, i, e, c.entries[i].tpl);
    EntryCountUpdate(c.entries, i, e, e.tpl);
    forall t
      ensures CacheCount(c.(entries := c.entries[i := e]), t)
           == CacheCount(c, t) - (if c.entries[i].tpl == t then 1 else 0) + (if e.tpl == t then 1 else 0)
    {
      EntryCountUpdate(c.entries, i, e, t);
    }
  }

  /** The reload itself: the new template is counted before the old one is given up. */
  lemma ReplaceBalances(h: Heap, c: Cache, i: nat, ready: bool)
    requires i < |c.entries| && Covered(h, c)
    ensures var (hNew, t) := NewTemplate(h, ready);
      var gone := DecRefN(hNew, c.entries[i].tpl, 1);
      var c1 := c.(entries := c.entries[i := Entry(c.entries[i].key, t, false, true)]);
      && gone.Ok? && Balanced(h, c, gone.value, c1) && Covered(gone.value, c1)
      && CacheCount(c1, t) > 0 && t in gone.value.refs
  {
    var (hNew, t) := NewTemplate(h, ready);
    var e1 := Entry(c.entries[i].key, t, false, true);
    ReplaceCount(c, i, e1);
    NewTemplateEffect(h, ready);
    DecRefEffect(hNew, c.entries[i].tpl, 1);
    var h1 := DecRefN(hNew, c.entries[i].tpl, 1).value;
    assert Balanced(h, c, h1, c.(entries := c.entries[i := e1]));
    assert Ref(h1, t) > 0;
  }

  lemma RefreshBalances(h: Heap, c: Cache, i: nat, d: Disk)
    requires i < |c.entries| && Covered(h, c)
    ensures Refresh(h, c, i, d).Ok?
    ensures var (h1, c1, found) := Refresh(h, c, i, d).value;
      && Balanced(h, c, h1, c1) && Covered(h1, c1) && |c1.entries| == |c.entries|
      && (found.Some? ==> CacheCount(c1, found.value) > 0)
  {
    var e := c.entries[i];
    ReplaceCount(c, i, e);
    if e.shouldReload && e.fileBased && d.changed {
      ReplaceBalances(h, c, i, d.ready);
    } else {
      ReplaceCount(c, i, if e.shouldReload then e.(shouldReload := false) else e);
    }
  }

  lemma GetTemplateLockedBalances(h: Heap, c: Cache, key: Key, d: Disk)
    requires Covered(h, c)
    ensures GetTemplateLocked(h, c, key, d).Ok?
    ensures var (h1, c1, found) := GetTemplateLocked(h, c, key, d).value;
      Balanced(h, c, h1, c1) && (found.Some? ==> CacheCount(c1, found.value) > 0)
  {
    var i := IndexOf(c.entries, key);
    if i < |c.entries| {
      RefreshBalances(h, c, i, d);
    } else if !c.frozen {
      var (h1, t) := NewTemplate(h, d.ready);
      var e := Entry(key, t, false, true);
      NewTemplateEffect(h, d.ready);
      var c1 := c.(entries := c.entries + [e]);
      forall u ensures CacheCount(c1, u) == CacheCount(c, u) + (if u == t then 1 else 0) {
        EntryCountAppend(c.entries, e, u);
      }
      RefreshBalances(h1, c1, i, d);
    }
  }

  lemma {:induction false} ReloadFromBalances(h: Heap, c: Cache, i: nat, immediate: bool, disk: Key -> Disk)
    requires Covered(h, c)
    ensures ReloadFrom(h, c, i, immediate, disk).Ok?
    ensures var (h1, c1) := ReloadFrom(h, c, i, immediate, disk).value; Balanced(h, c, h1, c1)
    decreases |c.entries| - i
  {
    hide Refresh;
    if i < |c.entries| {
      var e1 := c.entries[i].(shouldReload := true);
      var c1 := c.(entries := c.entries[i := e1]);
      ReplaceCount(c, i, e1);
      if immediate {
        RefreshBalances(h, c1, i, disk(e1.key));
        var (h2, c2, _) := Refresh(h, c1, i, disk(e1.key)).value;
        ReloadFromBalances(h2, c2, i + 1, immediate, disk);
      } else {
        ReloadFromBalances(h, c1, i + 1, immediate, disk);
      }
    }
  }

  lemma PinKeepsInv(w: World, i: nat, t: Tpl)
    requires Inv(w) && i < |w.caches| && CacheCount(w.caches[i], t) > 0
    ensures IncRef(w.heap, t).Ok?
    ensures Inv(w.(heap := IncRef(w.heap, t).value, held := w.held + multiset{t}))
  {
    WithCacheOwned(w, i, w.heap, w.caches[i]);
    assert Ref(w.heap, t) == Owned(w, t);
    IncRefEffect(w.heap, t);
  }

  lemma ReturnKeepsInv(w: World, i: nat, t: Tpl)
    requires Inv(w) && i < |w.caches| && CacheCount(w.caches[i], t) > 0
    ensures IncRef(w.heap, t).Ok?
    ensures Inv(WithCache(w, i, IncRef(w.heap, t).value, w.caches[i].(calls := AddCall(w.caches[i].calls, t))))
  {
    var c := w.caches[i];
    var c1 := c.(calls := AddCall(c.calls, t));
    WithCacheOwned(w, i, w.heap, c);
    assert Ref(w.heap, t) == Owned(w, t);
    IncRefEffect(w.heap, t);
    forall u ensures CacheCount(c1, u) == CacheCount(c, u) + (if u == t then 1 else 0) {
      AddCallCount(c.calls, t, u);
    }
    AddCallCount(c.calls, t, t);
    WithCacheOwned(w, i, IncRef(w.heap, t).value, c1);
  }

  /**
   What a lookup answers: the ready template now under the key, freshly loaded if the entry
   was missing or had changed on disk.  Every other entry stays as it was.
   */
  lemma LookupAnswers(h: Heap, c: Cache, key: Key, d: Disk)
    requires GetTemplateLocked(h, c, key, d).Ok?
    ensures var answer := GetTemplateLocked(h, c, key, d).value;
      var h1, c1, found := answer.0, answer.1, answer.2;
      var k := IndexOf(c.entries, key);
      if k == |c.entries| && c.frozen then h1 == h && c1 == c && found.None?
      else
        && IndexOf(c1.entries, key) == k < |c1.entries| && !c1.entries[k].shouldReload
        && found == (if c1.entries[k].tpl.ready then Some(c1.entries[k].tpl) else None)
        && c1.entries[..k] == c.entries[..k] && c1.entries[k + 1..] == c.entries[if k < |c.entries| then k + 1 else k..]
        && c1.entries[k].tpl ==
             (if k == |c.entries| || (c.entries[k].shouldReload && c.entries[k].fileBased && d.changed)
              then Tpl(h.next, d.ready) else c.entries[k].tpl)
  {
    var (h1, c1, found) := GetTemplateLocked(h, c, key, d).value;
    var k := IndexOf(c.entries, key);
    if k < |c.entries| || !c.frozen {
      assert c1.entries[k].key == key;
      assert forall j :: 0 <= j < k ==> c1.entries[j] == c.entries[j];
      assert c1.entries[IndexOf(c1.entries, key)].key == key;
    }
  }

  lemma LookupKeepsInv(w: World, s: Step)
    requires Inv(w) && Enabled(w, s) && s.Lookup?
    ensures Next(w, s).Ok? && Inv(Next(w, s).value)
  {
    var i, c := s.c, w.caches[s.c];
    WithCacheOwned(w, i, w.heap, c);
    GetTemplateLockedBalances(w.heap, c, s.key, s.d);
    var (h1, c1, found) := GetTemplateLocked(w.heap, c, s.key, s.d).value;
    WithCacheOwned(w, i, h1, c1);
    var w1 := WithCache(w, i, h1, c1);
    assert Inv(w1);
    if found.Some? && !s.use.JustLoad? {
      if s.use.Return? {
        ReturnKeepsInv(w1, i, found.value);
        var c2 := c1.(calls := AddCall(c1.calls, found.value));
        assert w.caches[i := c1][i := c2] == w.caches[i := c2];
      } else {
        PinKeepsInv(w1, i, found.value);
      }
    }
  }

  lemma InsertStringKeepsInv(w: World, s: Step)
    requires Inv(w) && Enabled(w, s) && s.InsertString?
    ensures Next(w, s).Ok? && Inv(Next(w, s).value)
  {
    var i, c := s.c, w.caches[s.c];
    var k := IndexOf(c.entries, s.key);
    var (h1, t) := NewTemplate(w.heap, true);
    var e := Entry(s.key, t, false, false);
    NewTemplateEffect(w.heap, true);
    WithCacheOwned(w, i, w.heap, c);
    if k == |c.entries| {
      var c1 := c.(entries := c.entries + [e]);
      forall u ensures CacheCount(c1, u) == CacheCount(c, u) + (if u == t then 1 else 0) {
        EntryCountAppend(c.entries, e, u);
      }
      WithCacheOwned(w, i, h1, c1);
    } else if c.entries[k].tpl.ready {
      DecRefEffect(h1, t, 1);
      FoundEntryIsCounted(w, i, k);
    } else {
      OverwriteKeepsInv(w, i, k, e);
    }
  }

  /** StringToTemplateCache replaces an entry that failed to load. */
  lemma OverwriteKeepsInv(w: World, i: nat, k: nat, e: Entry)
    requires Inv(w) && i < |w.caches| && k < |w.caches[i].entries| && e.tpl == NewTemplate(w.heap, true).1
    ensures var es := w.caches[i].entries;
      var gone := DecRefN(NewTemplate(w.heap, true).0, es[k].tpl, 1);
      && gone.Ok? && es[k].tpl in NewTemplate(w.heap, true).0.refs
      && Inv(WithCache(w, i, gone.value, w.caches[i].(entries := es[k := e])))
  {
    var c, h1 := w.caches[i], NewTemplate(w.heap, true).0;
    NewTemplateEffect(w.heap, true);
    ReplaceCount(c, k, e);
    FoundEntryIsCounted(w, i, k);
    assert Ref(w.heap, c.entries[k].tpl) == Owned(w, c.entries[k].tpl);
    DecRefEffect(h1, c.entries[k].tpl, 1);
    WithCacheOwned(w, i, DecRefN(h1, c.entries[k].tpl, 1).value, c.(entries := c.entries[k := e]));
  }

  lemma DeleteKeepsInv(w: World, s: Step)
    requires Inv(w) && Enabled(w, s) && s.Delete?
    ensures Next(w, s).Ok? && Inv(Next(w, s).value)
  {
    var c := w.caches[s.c];
    if !c.frozen {
      var gone := Named(c.entries, s.name);
      var c1 := c.(entries := NotNamed(c.entries, s.name));
      forall t ensures CacheCount(c, t) == CacheCount(c1, t) + EntryCount(gone, t) {
        EntryCountPartition(c.entries, s.name, t);
      }
      WithCacheOwned(w, s.c, w.heap, c);
      DecRefEntriesEffect(w.heap, gone);
      WithCacheOwned(w, s.c, DecRefEntries(w.heap, gone).value, c1);
    }
  }

  lemma DetachKeepsInv(w: World, s: Step)
    requires Inv(w) && Enabled(w, s) && s.Detach?
    ensures Next(w, s).Ok? && Inv(Next(w, s).value)
  {
    var c := w.caches[s.c];
    var c1 := c.(entries := [], frozen := false);
    WithCacheOwned(w, s.c, w.heap, c1);
    forall t ensures Owned(Next(w, s).value, t) == Owned(w, t) {
      TemplatesCount(c.entries, t);
      assert CacheCount(c1, t) == CallCount(c.calls, t);
      assert Owned(Next(w, s).value, t) == Owned(WithCache(w, s.c, w.heap, c1), t) + Templates(c.entries)[t];
    }
  }

  lemma DoneKeepsInv(w: World, s: Step)
    requires Inv(w) && Enabled(w, s) && s.DoneWithGetTemplatePtrs?
    ensures Next(w, s).Ok? && Inv(Next(w, s).value)
  {
    var c := w.caches[s.c];
    WithCacheOwned(w, s.c, w.heap, c);
    forall t ensures CallCount(c.calls, t) <= Ref(w.heap, t) {
      assert CacheCount(c, t) <= Owned(w, t);
    }
    DecRefCallsEffect(w.heap, c.calls);
    WithCacheOwned(w, s.c, DecRefCalls(w.heap, c.calls).value, c.(calls := []));
  }

  lemma CloneKeepsInv(w: World, s: Step)
    requires Inv(w) && Enabled(w, s) && s.Clone?
    ensures Next(w, s).Ok? && Inv(Next(w, s).value)
  {
    var es := w.caches[s.c].entries;
    WithCacheOwned(w, s.c, w.heap, w.caches[s.c]);
    forall t ensures EntryCount(es, t) <= Ref(w.heap, t) {
      assert CacheCount(w.caches[s.c], t) <= Owned(w, t);
    }
    IncRefEntriesEffect(w.heap, es);
    var c1 := Cache(es, false, []);
    forall t ensures Owned(Next(w, s).value, t) == Owned(w, t) + EntryCount(es, t) {
      AllCountAppend(w.caches, c1, t);
      assert CacheCount(c1, t) == EntryCount(es, t);
    }
  }

  lemma FoundEntryIsCounted(w: World, i: nat, k: nat)
    requires i < |w.caches| && k < |w.caches[i].entries|
    ensures Owned(w, w.caches[i].entries[k].tpl) > 0
  {
    WithCacheOwned(w, i, w.heap, w.caches[i]);
    ReplaceCount(w.caches[i], k, w.caches[i].entries[k]);
    assert CacheCount(w.caches[i], w.caches[i].entries[k].tpl) <= Owned(w, w.caches[i].entries[k].tpl);
  }

  lemma PinFrozenKeepsInv(w: World, s: Step)
    requires Inv(w) && Enabled(w, s) && (s.PinFrozen? || s.CheckString?)
    ensures Next(w, s).Ok? && Inv(Next(w, s).value)
  {
    var es := w.caches[s.c].entries;
    var k := IndexOf(es, s.key);
    if k < |es| {
      FoundEntryIsCounted(w, s.c, k);
      assert Ref(w.heap, es[k].tpl) == Owned(w, es[k].tpl);
      IncRefEffect(w.heap, es[k].tpl);
    }
  }

  lemma UnpinKeepsInv(w: World, s: Step)
    requires Inv(w) && Enabled(w, s) && s.Unpin?
    ensures Next(w, s).Ok? && Inv(Next(w, s).value)
  {
    assert Ref(w.heap, s.t) == Owned(w, s.t);
    DecRefEffect(w.heap, s.t, 1);
  }

  lemma ReloadAllKeepsInv(w: World, s: Step)
    requires Inv(w) && Enabled(w, s) && s.ReloadAll?
    ensures Next(w, s).Ok? && Inv(Next(w, s).value)
  {
    var c := w.caches[s.c];
    if !c.frozen {
      WithCacheOwned(w, s.c, w.heap, c);
      ReloadFromBalances(w.heap, c, 0, s.immediate, s.disk);
      var (h1, c1) := ReloadFrom(w.heap, c, 0, s.immediate, s.disk).value;
      WithCacheOwned(w, s.c, h1, c1);
    }
  }

  lemma NewCacheKeepsInv(w: World)
    requires Inv(w)
    ensures Next(w, NewCache).Ok? && Inv(Next(w, NewCache).value)
  {
    forall t ensures Owned(Next(w, NewCache).value, t) == Owned(w, t) {
      AllCountAppend(w.caches, Cache([], false, []), t);
    }
  }

  lemma SetFrozenKeepsInv(w: World, s: Step)
    requires Inv(w) && Enabled(w, s) && s.SetFrozen?
    ensures Next(w, s).Ok? && Inv(Next(w, s).value)
  {
    WithCacheOwned(w, s.c, w.heap, w.caches[s.c].(frozen := true));
  }

  /** Safety of one critical section: no assertion fails, no dead template is touched. */
  lemma NextKeepsInv(w: World, s: Step)
    requires Inv(w) && Enabled(w, s)
    ensures Next(w, s).Ok? && Inv(Next(w, s).value)
  {
    match s
    case NewCache => NewCacheKeepsInv(w);
    case Lookup(_, _, _, _) => LookupKeepsInv(w, s);
    case PinFrozen(_, _) => PinFrozenKeepsInv(w, s);
    case CheckString(_, _) => PinFrozenKeepsInv(w, s);
    case InsertString(_, _) => InsertStringKeepsInv(w, s);
    case Unpin(_) => UnpinKeepsInv(w, s);
    case Delete(_, _) => DeleteKeepsInv(w, s);
    case Detach(_) => DetachKeepsInv(w, s);
    case DoneWithGetTemplatePtrs(_) => DoneKeepsInv(w, s);
    case ReloadAll(_, _, _) => ReloadAllKeepsInv(w, s);
    case SetFrozen(_) => SetFrozenKeepsInv(w, s);
    case Clone(_) => CloneKeepsInv(w, s);
  }

  lemma {:induction false} RunKeepsInv(w: World, steps: seq<Step>)
    requires Inv(w)
    ensures Run(w, steps).Ok? && Inv(Run(w, steps).value)
    decreases |steps|
  {
    if steps != [] {
      if Enabled(w, steps[0]) {
        NextKeepsInv(w, steps[0]);
        RunKeepsInv(Next(w, steps[0]).value, steps[1..]);
      } else {
        RunKeepsInv(w, steps[1..]);
      }
    }
  }

  /** Every interleaving from the start: no fault, exact counts, no early and no double delete. */
  lemma EveryRunIsSafe(steps: seq<Step>)
    ensures Run(Initial, steps).Ok?
    ensures var w := Run(Initial, steps).value;
      && (forall t :: Ref(w.heap, t) == AllCount(w.caches, t) + w.held[t])
      && (forall t :: t in w.held ==> t in w.heap.refs && t !in w.heap.deleted)
      && (forall t :: t in w.heap.created ==>
            w.heap.deleted[t] == if AllCount(w.caches, t) + w.held[t] == 0 then 1 else 0)
  {
    RunKeepsInv(Initial, steps);
    var w := Run(Initial, steps).value;
    assert forall t :: Ref(w.heap, t) == Owned(w, t);
  }
}

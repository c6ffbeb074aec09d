module FrozenCaches {
  // Freezing a cache (template_cache.cc).
  //
  // With whole operations atomic, a frozen cache never changes until ClearCache.  With the
  // critical sections interleaved it can, in exactly three ways, and no others.

  import opened Wrappers
  import opened TemplateCaches

  /** Operations made of one section are steps; the others are put together below. */
  datatype Operation =
    | Single(s: Step)
    | StringToTemplateCache(c: nat, key: Key, parses: bool)
    | Freeze(c: nat, disk: Key -> Disk)
    | ClearCache(c: nat)

  predicate Possible(w: World, op: Operation) {
    match op
    case Single(s) => Enabled(w, s) && !s.InsertString? && !s.SetFrozen? && !s.Detach?
    case _ => op.c < |w.caches|
  }

  /** ClearCache's loop over the map it swapped out. */
  function Drain(w: World, es: seq<Entry>): Checked<World>
    decreases |es|
  {
    if es == [] then Ok(w)
    else if es[0].tpl !in w.held then Fault
    else
      var w1 :- Next(w, Unpin(es[0].tpl));
      Drain(w1, es[1..])
  }

  function Perform(w: World, op: Operation): Checked<World>
    requires Possible(w, op)
  {
    match op
    case Single(s) => Next(w, s)
    case StringToTemplateCache(i, key, parses) =>
      var es := w.caches[i].entries;
      var k := IndexOf(es, key);
      if w.caches[i].frozen then Ok(w)
      else if k < |es| && es[k].tpl.ready then Next(w, CheckString(i, key))
      else if !parses then Next(w, CheckString(i, key))
      else Next(w, InsertString(i, key))
    case Freeze(i, disk) =>
      if w.caches[i].frozen then Ok(w)
      else
        var w1 :- Next(w, ReloadAll(i, true, disk));
        if i < |w1.caches| then Next(w1, SetFrozen(i)) else Fault
    case ClearCache(i) =>
      var w1 :- Next(w, Detach(i));
      var w2 :- Drain(w1, w.caches[i].entries);
      if i < |w2.caches| then Next(w2, DoneWithGetTemplatePtrs(i)) else Fault
  }

  function PerformAll(w: World, ops: seq<Operation>): Checked<World>
    decreases |ops|
  {
    if ops == [] then Ok(w)
    else if !Possible(w, ops[0]) then PerformAll(w, ops[1..])
    else
      var w1 :- Perform(w, ops[0]);
      PerformAll(w1, ops[1..])
  }

  predicate Clean(es: seq<Entry>) {
    forall e :: e in es ==> !e.shouldReload
  }

  predicate FrozenAreClean(w: World) {
    forall i :: 0 <= i < |w.caches| && w.caches[i].frozen ==> Clean(w.caches[i].entries)
  }

  /** Every cache that was frozen still is, with the same map. */
  predicate FrozenUnchanged(w: World, w1: World) {
    && |w.caches| <= |w1.caches|
    && forall i :: 0 <= i < |w.caches| && w.caches[i].frozen ==>
         w1.caches[i].frozen && w1.caches[i].entries == w.caches[i].entries
  }

  lemma {:induction false} ImmediateReloadCleans(h: Heap, c: Cache, i: nat, disk: Key -> Disk)
    requires i <= |c.entries| && Clean(c.entries[..i]) && ReloadFrom(h, c, i, true, disk).Ok?
    ensures Clean(ReloadFrom(h, c, i, true, disk).value.1.entries)
    decreases |c.entries| - i
  {
    if i == |c.entries| {
      assert c.entries[..i] == c.entries;
    } else {
      var c1 := c.(entries := c.entries[i := c.entries[i].(shouldReload := true)]);
      var (h2, c2, _) := Refresh(h, c1, i, disk(c1.entries[i].key)).value;
      assert c2.entries[..i + 1] == c.entries[..i] + [c2.entries[i]];
      ImmediateReloadCleans(h2, c2, i + 1, disk);
    }
  }

  lemma IndexOfAbsent(es: seq<Entry>, key: Key)
    requires forall e :: e in es ==> e.key != key
    ensures IndexOf(es, key) == |es|
  {
    assert forall i :: 0 <= i < |es| ==> es[i] in es;
  }

  /** A lookup in a clean map only answers: the entry found is not reloaded. */
  lemma FrozenLookup(h: Heap, c: Cache, key: Key, d: Disk)
    requires c.frozen && Clean(c.entries) && GetTemplateLocked(h, c, key, d).Ok?
    ensures var (h1, c1, found) := GetTemplateLocked(h, c, key, d).value;
      && h1 == h && c1 == c
      && ((forall e :: e in c.entries ==> e.key != key) ==> found.None?)
  {
    var i := IndexOf(c.entries, key);
    if i < |c.entries| {
      assert c.entries[i] in c.entries;
      assert c.entries[i := c.entries[i]] == c.entries;
    }
  }

  lemma StepKeepsFrozen(w: World, s: Step)
    requires Inv(w) && FrozenAreClean(w) && Possible(w, Single(s))
    ensures Next(w, s).Ok? && FrozenAreClean(Next(w, s).value) && FrozenUnchanged(w, Next(w, s).value)
  {
    NextKeepsInv(w, s);
    match s
    case Lookup(_, _, _, _) => LookupKeepsFrozen(w, s);
    case ReloadAll(i, immediate, disk) =>
      if !w.caches[i].frozen {
        ReloadLeavesUnfrozen(w.heap, w.caches[i], 0, immediate, disk);
      }
    case _ =>
  }

  lemma LookupKeepsFrozen(w: World, s: Step)
    requires Inv(w) && FrozenAreClean(w) && Enabled(w, s) && s.Lookup? && Next(w, s).Ok?
    ensures FrozenAreClean(Next(w, s).value) && FrozenUnchanged(w, Next(w, s).value)
  {
    if w.caches[s.c].frozen {
      FrozenLookup(w.heap, w.caches[s.c], s.key, s.d);
    } else {
      LookupLeavesUnfrozen(w, s);
    }
  }

  lemma LookupLeavesUnfrozen(w: World, s: Step)
    requires Enabled(w, s) && s.Lookup? && Next(w, s).Ok? && !w.caches[s.c].frozen
    ensures var w1 := Next(w, s).value;
      && |w1.caches| == |w.caches| && !w1.caches[s.c].frozen
      && forall j :: 0 <= j < |w.caches| && j != s.c ==> w1.caches[j] == w.caches[j]
  {
  }

  lemma {:induction false} ReloadLeavesUnfrozen(h: Heap, c: Cache, i: nat, immediate: bool, disk: Key -> Disk)
    requires ReloadFrom(h, c, i, immediate, disk).Ok?
    ensures ReloadFrom(h, c, i, immediate, disk).value.1.frozen == c.frozen
    decreases |c.entries| - i
  {
    if i < |c.entries| {
      var c1 := c.(entries := c.entries[i := c.entries[i].(shouldReload := true)]);
      if immediate {
        var (h2, c2, _) := Refresh(h, c1, i, disk(c1.entries[i].key)).value;
        ReloadLeavesUnfrozen(h2, c2, i + 1, immediate, disk);
      } else {
        ReloadLeavesUnfrozen(h, c1, i + 1, immediate, disk);
      }
    }
  }

  lemma {:induction false} DrainIsSafe(w: World, es: seq<Entry>)
    requires Inv(w) && Templates(es) <= w.held
    ensures Drain(w, es).Ok? && Inv(Drain(w, es).value) && Drain(w, es).value.caches == w.caches
    ensures Drain(w, es).value.held == w.held - Templates(es)
    decreases |es|
  {
    if es != [] {
      var t := es[0].tpl;
      assert Templates(es)[t] >= 1;
      NextKeepsInv(w, Unpin(t));
      var w1 := Next(w, Unpin(t)).value;
      forall u ensures Templates(es[1..])[u] <= w1.held[u] {
        assert Templates(es)[u] <= w.held[u];
      }
      DrainIsSafe(w1, es[1..]);
    }
  }

  lemma ClearCacheIsSafe(w: World, i: nat)
    requires Inv(w) && FrozenAreClean(w) && i < |w.caches|
    ensures Perform(w, ClearCache(i)).Ok?
    ensures var w1 := Perform(w, ClearCache(i)).value;
      && Inv(w1) && FrozenAreClean(w1) && w1.held == w.held
      && w1.caches == w.caches[i := Cache([], false, [])]
  {
    var w1 := DetachThenDrain(w, i);
    NextKeepsInv(w1, DoneWithGetTemplatePtrs(i));
    assert w1.caches[i := Cache([], false, [])] == w.caches[i := Cache([], false, [])];
  }

  lemma DetachThenDrain(w: World, i: nat) returns (w1: World)
    requires Inv(w) && i < |w.caches|
    ensures Next(w, Detach(i)).Ok? && Drain(Next(w, Detach(i)).value, w.caches[i].entries) == Ok(w1)
    ensures Inv(w1) && w1.held == w.held
    ensures w1.caches == w.caches[i := w.caches[i].(entries := [], frozen := false)]
  {
    NextKeepsInv(w, Detach(i));
    var detached := Next(w, Detach(i)).value;
    DrainIsSafe(detached, w.caches[i].entries);
    w1 := Drain(detached, w.caches[i].entries).value;
  }

  lemma FreezeIsSafe(w: World, i: nat, disk: Key -> Disk)
    requires Inv(w) && FrozenAreClean(w) && i < |w.caches|
    ensures Perform(w, Freeze(i, disk)).Ok?
    ensures var w1 := Perform(w, Freeze(i, disk)).value;
      Inv(w1) && FrozenAreClean(w1) && FrozenUnchanged(w, w1) && w1.caches[i].frozen
  {
    if !w.caches[i].frozen {
      NextKeepsInv(w, ReloadAll(i, true, disk));
      var w1 := Next(w, ReloadAll(i, true, disk)).value;
      ImmediateReloadCleans(w.heap, w.caches[i], 0, disk);
      NextKeepsInv(w1, SetFrozen(i));
    }
  }

  lemma StringKeepsFrozen(w: World, i: nat, key: Key, parses: bool)
    requires Inv(w) && FrozenAreClean(w) && i < |w.caches|
    ensures var r := Perform(w, StringToTemplateCache(i, key, parses));
      r.Ok? && Inv(r.value) && FrozenAreClean(r.value) && FrozenUnchanged(w, r.value)
  {
    hide DecRefN;
    if !w.caches[i].frozen {
      NextKeepsInv(w, CheckString(i, key));
      NextKeepsInv(w, InsertString(i, key));
    }
  }

  lemma PerformKeepsFrozen(w: World, op: Operation)
    requires Inv(w) && FrozenAreClean(w) && Possible(w, op)
    ensures Perform(w, op).Ok? && Inv(Perform(w, op).value) && FrozenAreClean(Perform(w, op).value)
    ensures !op.ClearCache? ==> FrozenUnchanged(w, Perform(w, op).value)
    ensures op.ClearCache? ==> Perform(w, op).value.caches == w.caches[op.c := Cache([], false, [])]
  {
    hide Next;
    match op
    case Single(s) =>
      NextKeepsInv(w, s);
      StepKeepsFrozen(w, s);
    case StringToTemplateCache(i, key, parses) =>
      StringKeepsFrozen(w, i, key, parses);
    case Freeze(i, disk) => FreezeIsSafe(w, i, disk);
    case ClearCache(i) => ClearCacheIsSafe(w, i);
  }

  /**
   From Freeze until ClearCache on that cache, over any run of whole operations: the map
   stays as it was and looking up a key it does not hold fails without loading anything.
   */
  lemma {:induction false} FrozenUntilCleared(w: World, ops: seq<Operation>, i: nat)
    requires Inv(w) && FrozenAreClean(w) && i < |w.caches| && w.caches[i].frozen
    requires forall op :: op in ops && op.ClearCache? ==> op.c != i
    ensures PerformAll(w, ops).Ok?
    ensures var w1 := PerformAll(w, ops).value;
      && Inv(w1) && FrozenAreClean(w1) && i < |w1.caches|
      && w1.caches[i].frozen && w1.caches[i].entries == w.caches[i].entries
      && forall key, d | (forall e :: e in w.caches[i].entries ==> e.key != key) ::
           GetTemplateLocked(w1.heap, w1.caches[i], key, d) == Ok((w1.heap, w1.caches[i], None))
    decreases |ops|
  {
    if ops == [] {
      forall key, d | forall e :: e in w.caches[i].entries ==> e.key != key
        ensures GetTemplateLocked(w.heap, w.caches[i], key, d) == Ok((w.heap, w.caches[i], None))
      {
        IndexOfAbsent(w.caches[i].entries, key);
      }
    } else if Possible(w, ops[0]) {
      PerformKeepsFrozen(w, ops[0]);
      assert ops[0] in ops;
      FrozenUntilCleared(Perform(w, ops[0]).value, ops[1..], i);
    } else {
      FrozenUntilCleared(w, ops[1..], i);
    }
  }

  /** Every state reached by whole operations meets the requirements of the lemma above. */
  lemma {:induction false} PerformAllIsSafe(w: World, ops: seq<Operation>)
    requires Inv(w) && FrozenAreClean(w)
    ensures PerformAll(w, ops).Ok?
    ensures Inv(PerformAll(w, ops).value) && FrozenAreClean(PerformAll(w, ops).value)
    decreases |ops|
  {
    if ops != [] {
      if Possible(w, ops[0]) {
        PerformKeepsFrozen(w, ops[0]);
        PerformAllIsSafe(Perform(w, ops[0]).value, ops[1..]);
      } else {
        PerformAllIsSafe(w, ops[1..]);
      }
    }
  }

  // ----- critical sections that change a frozen cache -----

  /**
   The sections that change a frozen cache i whose map is es: a lookup that finds a marked
   entry, the second section of StringToTemplateCache unless the key has a ready template, and
   the swap in ClearCache.
   */
  predicate Disturbs(es: seq<Entry>, i: nat, s: Step) {
    match s
    case Lookup(c, key, _, _) => c == i && var k := IndexOf(es, key); k < |es| && es[k].shouldReload
    case InsertString(c, key) => c == i && var k := IndexOf(es, key); k == |es| || !es[k].tpl.ready
    case Detach(c) => c == i
    case _ => false
  }

  lemma LookupKeepsFrozenIff(w: World, s: Step)
    requires Inv(w) && Enabled(w, s) && s.Lookup? && w.caches[s.c].frozen && Next(w, s).Ok?
    ensures s.c < |Next(w, s).value.caches| && Next(w, s).value.caches[s.c].frozen
    ensures Next(w, s).value.caches[s.c].entries == w.caches[s.c].entries <==> !Disturbs(w.caches[s.c].entries, s.c, s)
  {
    var es := w.caches[s.c].entries;
    var k := IndexOf(es, s.key);
    if k < |es| {
      var (_, c1, _) := GetTemplateLocked(w.heap, w.caches[s.c], s.key, s.d).value;
      assert !c1.entries[k].shouldReload;
      assert !es[k].shouldReload ==> c1.entries == es;
      assert Next(w, s).value.caches[s.c].entries == c1.entries;
    }
  }

  lemma InsertChangesIff(w: World, s: Step)
    requires Enabled(w, s) && s.InsertString? && Next(w, s).Ok?
    ensures s.c < |Next(w, s).value.caches| && Next(w, s).value.caches[s.c].frozen == w.caches[s.c].frozen
    ensures Next(w, s).value.caches[s.c].entries == w.caches[s.c].entries <==> !Disturbs(w.caches[s.c].entries, s.c, s)
  {
    hide DecRefN;
    var es := w.caches[s.c].entries;
    var k := IndexOf(es, s.key);
    if k < |es| && !es[k].tpl.ready {
      assert Next(w, s).value.caches[s.c].entries[k].tpl.ready;
    }
  }

  predicate MayDisturb(s: Step, i: nat) {
    match s
    case Lookup(c, _, _, _) => c == i
    case InsertString(c, _) => c == i
    case Detach(c) => c == i
    case _ => false
  }

  lemma OthersLeaveFrozen(w: World, s: Step, i: nat)
    requires Enabled(w, s) && Next(w, s).Ok? && i < |w.caches| && w.caches[i].frozen && !MayDisturb(s, i)
    ensures i < |Next(w, s).value.caches| && !Disturbs(w.caches[i].entries, i, s)
    ensures Next(w, s).value.caches[i].frozen && Next(w, s).value.caches[i].entries == w.caches[i].entries
  {
    hide ReloadFrom, DecRefEntries, IncRefEntries, DecRefCalls, DecRefN, IncRef, GetTemplateLocked, IndexOf, IsReady;
  }

  /** One section, exactly: what keeps a frozen cache frozen with its map. */
  lemma SectionKeepsFrozenIff(w: World, s: Step, i: nat)
    requires Inv(w) && Enabled(w, s) && i < |w.caches| && w.caches[i].frozen
    ensures Next(w, s).Ok? && Inv(Next(w, s).value) && i < |Next(w, s).value.caches|
    ensures var c, c1 := w.caches[i], Next(w, s).value.caches[i];
      && (c1.frozen && c1.entries == c.entries <==> !Disturbs(c.entries, i, s))
      && (c1.entries == c.entries <==> !Disturbs(c.entries, i, s) || (s.Detach? && c.entries == []))
  {
    NextKeepsInv(w, s);
    if !MayDisturb(s, i) {
      hide Next, Disturbs;
      OthersLeaveFrozen(w, s, i);
    } else if s.Detach? {
      var c1 := w.caches[i].(entries := [], frozen := false);
      assert Next(w, s).value.caches == w.caches[i := c1];
    } else {
      hide Next, Disturbs;
      FoundKeepsFrozenIff(w, s, i);
    }
  }

  lemma FoundKeepsFrozenIff(w: World, s: Step, i: nat)
    requires Inv(w) && Enabled(w, s) && i < |w.caches| && w.caches[i].frozen && Next(w, s).Ok?
    requires MayDisturb(s, i) && !s.Detach?
    ensures i < |Next(w, s).value.caches| && Next(w, s).value.caches[i].frozen
    ensures Next(w, s).value.caches[i].entries == w.caches[i].entries <==> !Disturbs(w.caches[i].entries, i, s)
  {
    hide Next, Disturbs;
    if s.Lookup? {
      LookupKeepsFrozenIff(w, s);
    } else {
      InsertChangesIff(w, s);
    }
  }

  /** At every point of a run cache i is frozen and its map is es. */
  ghost predicate StaysFrozen(w: World, steps: seq<Step>, i: nat, es: seq<Entry>)
    decreases |steps|
  {
    && i < |w.caches| && w.caches[i].frozen && w.caches[i].entries == es
    && (steps != [] ==>
          if !Enabled(w, steps[0]) then StaysFrozen(w, steps[1..], i, es)
          else Next(w, steps[0]).Ok? && StaysFrozen(Next(w, steps[0]).value, steps[1..], i, es))
  }

  /** Any interleaving, exactly: a frozen cache stays as it is when no section disturbs its map. */
  lemma {:induction false} RunKeepsFrozenIff(w: World, steps: seq<Step>, i: nat)
    requires Inv(w) && i < |w.caches| && w.caches[i].frozen
    ensures StaysFrozen(w, steps, i, w.caches[i].entries)
      <==> forall j :: 0 <= j < |steps| ==> !Disturbs(w.caches[i].entries, i, steps[j])
    decreases |steps|
  {
    hide Next, Disturbs;
    if steps != [] {
      var es := w.caches[i].entries;
      var tail := steps[1..];
      assert forall j :: 0 <= j < |tail| ==> tail[j] == steps[j + 1];
      assert (forall j :: 0 <= j < |steps| ==> !Disturbs(es, i, steps[j]))
        <==> !Disturbs(es, i, steps[0]) && forall j :: 0 <= j < |tail| ==> !Disturbs(es, i, tail[j]) by {
        assert forall j :: 1 <= j < |steps| ==> steps[j] == tail[j - 1];
      }
      if Enabled(w, steps[0]) {
        SectionKeepsFrozenIff(w, steps[0], i);
        var w1 := Next(w, steps[0]).value;
        if w1.caches[i].frozen && w1.caches[i].entries == es {
          RunKeepsFrozenIff(w1, tail, i);
        }
      } else {
        DisabledDisturbsNothing(w, steps[0], i);
        RunKeepsFrozenIff(w, tail, i);
      }
    }
  }

  lemma DisabledDisturbsNothing(w: World, s: Step, i: nat)
    requires i < |w.caches| && !Enabled(w, s)
    ensures !Disturbs(w.caches[i].entries, i, s)
  {
  }

  /** Once the map is clean no lookup can disturb it, so only two sections are left that do. */
  lemma CleanRunKeepsFrozenIff(w: World, steps: seq<Step>, i: nat)
    requires Inv(w) && i < |w.caches| && w.caches[i].frozen && Clean(w.caches[i].entries)
    ensures StaysFrozen(w, steps, i, w.caches[i].entries)
      <==> forall j :: 0 <= j < |steps| && (steps[j].InsertString? || steps[j].Detach?) ==>
             !Disturbs(w.caches[i].entries, i, steps[j])
  {
    var es := w.caches[i].entries;
    RunKeepsFrozenIff(w, steps, i);
    forall j | 0 <= j < |steps| && !steps[j].InsertString? && !steps[j].Detach?
      ensures !Disturbs(es, i, steps[j])
    {
      assert forall k :: 0 <= k < |es| ==> es[k] in es;
    }
  }

  /** A string is parsed while the cache is being frozen: its entry is added to the frozen map. */
  lemma StringInsertedAfterFreeze(key: Key, disk: Key -> Disk)
    ensures var w := Run(Initial, [NewCache, CheckString(0, key), ReloadAll(0, true, disk), SetFrozen(0)]);
      && w.Ok? && |w.value.caches| == 1 && w.value.caches[0].frozen
      && !StaysFrozen(w.value, [InsertString(0, key)], 0, w.value.caches[0].entries)
  {
    var s1, s2, s3 := CheckString(0, key), ReloadAll(0, true, disk), SetFrozen(0);
    var w1 := Next(Initial, NewCache).value;
    assert w1.caches == [Cache([], false, [])];
    assert Next(w1, s1) == Ok(w1) && Next(w1, s2) == Ok(w1) by {
      assert w1.caches[0 := w1.caches[0]] == w1.caches;
      assert ReloadFrom(w1.heap, w1.caches[0], 0, true, disk) == Ok((w1.heap, w1.caches[0]));
    }
    var w3 := Next(w1, s3).value;
    assert Run(Initial, [NewCache, s1, s2, s3]) == Ok(w3) by {
      assert [NewCache, s1, s2, s3][1..] == [s1, s2, s3];
      assert [s1, s2, s3][1..] == [s2, s3];
      assert [s2, s3][1..] == [s3];
      assert Run(w1, [s3]) == Run(w3, []);
      assert Run(w1, [s2, s3]) == Run(w1, [s3]);
      assert Run(w1, [s1, s2, s3]) == Run(w1, [s2, s3]);
    }
    RunKeepsInv(Initial, [NewCache, s1, s2, s3]);
    RunKeepsFrozenIff(w3, [InsertString(0, key)], 0);
    assert Disturbs([], 0, InsertString(0, key));
  }

  /**
   Freeze is three critical sections.  A lazy reload that lands between its reload and the
   setting of the flag leaves an entry to be replaced while the cache is already frozen.
   */
  lemma LazyReloadInsideFreeze(key: Key, disk: Key -> Disk)
    requires disk(key) == Disk(false, true)
    ensures var w := Run(Initial, [NewCache, Lookup(0, key, Disk(false, true), JustLoad),
                                   ReloadAll(0, true, disk), ReloadAll(0, false, disk), SetFrozen(0)]);
      && w.Ok? && |w.value.caches| == 1 && w.value.caches[0].frozen
      && var later := Next(w.value, Lookup(0, key, Disk(true, true), JustLoad));
        later.Ok? && later.value.caches[0].frozen && later.value.caches[0].entries != w.value.caches[0].entries
  {
    var s1, s2, s3 := Lookup(0, key, Disk(false, true), JustLoad), ReloadAll(0, true, disk), ReloadAll(0, false, disk);
    var t := Tpl(0, true);
    var e := Entry(key, t, false, true);
    var w1 := Next(Initial, NewCache).value;
    assert w1.caches == [Cache([], false, [])];
    var w2 := Next(w1, s1).value;
    assert IndexOf([], key) == 0 && [] + [e] == [e] && [e][0 := e] == [e];
    var c1 := Cache([e], false, []);
    assert Refresh(NewTemplate(w1.heap, true).0, c1, 0, Disk(false, true)).value.1 == c1;
    assert w2.caches == [Cache([e], false, [])] && w2.heap.refs == map[t := 1];
    var marked := Cache([e.(shouldReload := true)], false, []);
    assert ReloadFrom(w2.heap, w2.caches[0], 0, true, disk) == Ok((w2.heap, w2.caches[0])) by {
      assert [e][0 := e.(shouldReload := true)] == [e.(shouldReload := true)];
      assert [e.(shouldReload := true)][0 := e] == [e];
      assert Refresh(w2.heap, marked, 0, disk(key)) == Ok((w2.heap, w2.caches[0], Some(t)));
    }
    assert Next(w2, s2).value.caches == w2.caches;
    assert ReloadFrom(w2.heap, w2.caches[0], 0, false, disk) == Ok((w2.heap, marked)) by {
      assert [e][0 := e.(shouldReload := true)] == [e.(shouldReload := true)];
    }
    var w4 := Next(w2, s3).value;
    assert w4.caches == [marked];
    var w5 := Next(w4, SetFrozen(0)).value;
    assert Run(Initial, [NewCache, s1, s2, s3, SetFrozen(0)]) == Ok(w5) by {
      assert [NewCache, s1, s2, s3, SetFrozen(0)][1..] == [s1, s2, s3, SetFrozen(0)];
      assert [s1, s2, s3, SetFrozen(0)][1..] == [s2, s3, SetFrozen(0)];
      assert [s2, s3, SetFrozen(0)][1..] == [s3, SetFrozen(0)];
      assert [s3, SetFrozen(0)][1..] == [SetFrozen(0)];
      assert Run(w4, [SetFrozen(0)]) == Run(w5, []);
      assert Run(w2, [s3, SetFrozen(0)]) == Run(w4, [SetFrozen(0)]);
      assert Run(w2, [s2, s3, SetFrozen(0)]) == Run(w2, [s3, SetFrozen(0)]);
    }
  }
}

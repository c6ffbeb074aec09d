# Rikitiki and ctemplate: models and proofs

This project models, in Dafny, the parts of the rikitiki web framework and of the ctemplate 2.2
engine built into it whose correctness is not seen from any one function, and proves what
they are meant to keep.  `dafny verify dfyconfig.toml` checks all of it.

- **Template caches** (`TemplateCaches`, `CacheEffects`, `FrozenCaches`, `CacheMethods`).  Templates are shared
  by cloned caches, expansions in flight and raw pointers handed out.  A world of caches takes
  one step per critical section, in any order; reference counts are exact in every world
  reached, a frozen cache does not change until it is cleared, and what each section does is told by
  what a lookup of each key finds afterwards.
- **Arena** (`ArenaLayout`, `ArenaHandles`, `Arenas`, `ArenaRuns`, `ArenaClients`).  Bump
  allocation over malloc'ed blocks with shrinking, growing, freeing and reallocating of the last
  piece, 32-bit handles, and a client that serves any run of requests.
- **Template parser** (`TemplateTokens`, `TemplateTrees`, `TemplateScripts`, `TemplateReading`,
  `TemplateRoundTrip`, `TemplateParser`) and the stripping before it (`TemplateStrip`, `StripLaws`,
  `StripMethods`).  A *script* is text and markers by turns; a text builds a tree exactly when a
  script that means the tree is written as that text.
- **Dictionaries and expansion** (`Dictionaries`, `DictionaryLikeness`, `DictionaryChanges`,
  `DictionarySetters`, `DictionaryCopies`, `DictionaryMethods`, `Expansion`, `ExpansionOutput`,
  `ExpansionLaws`, `ExpansionEnds`, `TemplateExpander`).
  All dictionaries live in one store and a pointer is a position in it.  Two dictionaries are
  *alike* when they, their parents and their top-level dictionaries hold the same; alike
  dictionaries answer and expand the same, and a copy is alike to its original.
- **Small map** (`SmallMaps`): the array that turns into a map, as a map.
- **HTTP** (`HttpMessages`, `HttpWriter`, `HttpReader`, `HttpMethods`, `HttpHead`,
  `HttpRoundTrip`, `HttpWire`, `ChunkedCoding`, `Numerals`).  The writer's state machine and the
  incremental reader undo each other, whatever the fragments, and what is sent reads back by the
  grammar of RFC 7230.
- **WebSocket frames** (`WebSocketFrames`, `WebSocketWriter`), against a decoder written from
  RFC 6455.
- **Escapers and form decoding** (`JavascriptEscapes`, `SnippetEscapes`, `SnippetReading`,
  `SnippetMethods`, `FormContents`, `FormMethods`), and the fitting of modifiers (`EscapeModifiers`).

A component that changes things in place is a class or a method with loops, proved equal to a
function of its state; the properties are lemmas about that function.  `Fault` and `None`
stand for a failed assertion or check, an exception, or an operation C++ leaves undefined.

## Where the code does less than it promises

Each of these is proved by a lemma or a method, beside the condition under which the code keeps its
promise.

- A handle can resolve to the wrong address only in a first block that the caller supplied and
  that is not aligned for handles (`Arenas.BaseArena.GetMemoryWithHandle`); a request for no
  bytes with a handle trips a check.
- A piece of arena memory shrunk to nothing keeps its address, and the next allocation may get the
  same.  To shrink or reallocate the first again then takes bytes from the second
  (`ArenaClients.EmptiedPieceGrows`, `ArenaClients.EmptiedPieceGivesBack`); `ArenaClients.Serve`
  says that this, and no other request, breaks the order.
- A response whose head is cut between CR and LF is lost: for good in the start line or a user
  header (`HttpRoundTrip.EarlySplitNeverFinishes`), with a garbled body in the last two lines
  (`HttpRoundTrip.LateSplitGarblesBody`).  `HttpRoundTrip.ReadsBackExactly` says which messages
  survive which cuts.
- An empty payload write in chunked encoding ends the body (`ChunkedCoding.EmptyChunkEndsBody`).
- A WebSocket message of no bytes is not sent (`WebSocketFrames.EmptyMessageIsLost`).
- An empty form value fails an assertion of the decoder (`FormContents.EncodeRoundTrip`).
- Expansion runs for ever exactly when an include that is reached reaches itself
  (`ExpansionEnds.ExpansionEndsIff`), which takes a template-global section
  (`ExpansionEnds.ExpansionEnds`, `ExpansionEnds.GlobalSectionLoops`).
- Stripping, where it is asked for, runs for ever exactly on texts with a set-delimiters marker
  that names two empty markers (`TemplateStrip.StripEndsIff`).  Stripping white space may make one
  by joining lines, so that stripping again does not end (`TemplateStrip.StripTwice`,
  `TemplateStrip.JoinedLinesNameEmpty`).
- Freeze and StringToTemplateCache are several critical sections, and between them a frozen cache
  can come to change: `FrozenCaches.RunKeepsFrozenIff` says by which sections, and
  `FrozenCaches.LazyReloadInsideFreeze` and `FrozenCaches.StringInsertedAfterFreeze` give runs.
- An escaped character that comes in an overlong form of UTF-8 leaves JavaScript escaping as the
  plain character (`JavascriptEscapes.LiteralDenotesInput`).
- A template that ends right after a start marker is accepted as if it ended before it
  (`dangling` in `TemplateScripts.Script`; `TemplateReading.BuildTreeIff`).
- An entity that stands in a snippet is passed on and read as the character it names, not as the
  text it was (`SnippetReading.KeepsTextIff`).

## Model

| member | source | states |
|---|---|---|
| `TemplateCaches.EveryRunIsSafe` | third/ctemplate-2.2/src/template_cache.cc:89-128 | from no caches at all, every interleaving of critical sections on any number of clones runs without a failed assertion; each count is its cache entries plus its GetTemplate calls plus the references running operations hold, nothing held is freed, and a template is freed exactly when that sum is zero, and once |
| `TemplateCaches.NextKeepsInv` | third/ctemplate-2.2/src/template_cache.cc:264-474 | every critical section keeps the exact counts and never touches a freed template |
| `TemplateCaches.RunKeepsInv` | third/ctemplate-2.2/src/template_cache.cc:393-474 | the same over every run of sections, in any order |
| `TemplateCaches.DecRefEffect` | third/ctemplate-2.2/src/template_cache.cc:97-113 | dropping n references held is never refused, frees the template exactly at zero, and leaves all others alone |
| `TemplateCaches.LookupAnswers` | third/ctemplate-2.2/src/template_cache.cc:280-334 | a lookup answers with the ready template under the key, newly loaded exactly when the entry was missing in an unfrozen cache or marked and changed on disk; every other entry is untouched |
| `TemplateCaches.LookupKeepsInv` | third/ctemplate-2.2/src/template_cache.cc:264-334 | load, GetTemplate and the pin of Expand keep the counts exact |
| `TemplateCaches.InsertStringKeepsInv` | third/ctemplate-2.2/src/template_cache.cc:336-378 | the second section of StringToTemplateCache keeps the counts exact, whichever template loses |
| `TemplateCaches.DeleteKeepsInv` | third/ctemplate-2.2/src/template_cache.cc:593-614 | Delete drops one reference for each entry it erases |
| `TemplateCaches.DetachKeepsInv` | third/ctemplate-2.2/src/template_cache.cc:616-636 | the swap in ClearCache hands the entries' references to the call that drops them one by one later |
| `TemplateCaches.DoneKeepsInv` | third/ctemplate-2.2/src/template_cache.cc:649-656 | DoneWithGetTemplatePtrs gives back exactly the references GetTemplate handed out through this cache |
| `TemplateCaches.CloneKeepsInv` | third/ctemplate-2.2/src/template_cache.cc:721-731 | a clone adds one reference for each entry and takes no GetTemplate calls along |
| `TemplateCaches.ReloadAllKeepsInv` | third/ctemplate-2.2/src/template_cache.cc:673-690 | both ways to reload keep the counts exact while entries are replaced |
| `TemplateCaches.UnpinKeepsInv` | third/ctemplate-2.2/src/template_cache.cc:412-415 | the end of an expansion drops the reference that kept its template alive |
| `TemplateCaches.NotNamed` | third/ctemplate-2.2/src/template_cache.cc:593-614 | what Delete leaves has none of the deleted name |
| `CacheEffects.DeleteErases` | third/ctemplate-2.2/src/template_cache.cc:593-614 | after Delete in a cache that is not frozen no key of the name finds an entry and every other key finds the entry it found; a frozen cache is left alone |
| `CacheEffects.DeleteDestroys` | third/ctemplate-2.2/src/template_cache.cc:593-614 | Delete destroys exactly the templates whose only owners are entries it erases |
| `CacheEffects.DeletedLoadsAnew` | third/ctemplate-2.2/src/template_cache.cc:280-334 | the next lookup of a deleted key loads the next new template, ready or not as the file is, and leaves it under the key |
| `CacheEffects.LookupFinds` | third/ctemplate-2.2/src/template_cache.cc:264-334 | after a lookup the key finds its entry unmarked, with a new template exactly when there was none in an unfrozen cache or a marked one had changed on disk, and every other key finds what it found; a ready template is handed out with one counted call or one reference more, and nothing else is |
| `CacheEffects.PinFrozenFinds` | third/ctemplate-2.2/src/template_cache.cc:420-450 | ExpandNoLoad takes a reference to the entry of a frozen cache, if there is one, and changes no cache |
| `CacheEffects.UnpinGivesBack` | third/ctemplate-2.2/src/template_cache.cc:412-415 | giving a reference back changes no cache and destroys the template exactly when it was the last |
| `CacheEffects.InsertStringReplaces` | third/ctemplate-2.2/src/template_cache.cc:336-378 | the parsed string is what its key finds unless a ready template has the key, and then the new template is destroyed and no cache changes; other keys find what they found |
| `CacheEffects.DetachEmpties` | third/ctemplate-2.2/src/template_cache.cc:616-636 | the swap leaves the cache empty and not frozen, with the GetTemplate calls it had, and the running clear owns one reference for each entry |
| `CacheEffects.DoneGivesBack` | third/ctemplate-2.2/src/template_cache.cc:649-656 | all references handed out through the cache are given back and forgotten; its entries stay |
| `CacheEffects.ReloadAllFinds` | third/ctemplate-2.2/src/template_cache.cc:673-690 | a lazy reload marks the entry under every key and changes nothing else; an immediate one leaves it unmarked, with a new template as the file now reads exactly when it is file-based and has changed; a frozen cache is left alone |
| `CacheEffects.NewCachesFind` | third/ctemplate-2.2/src/template_cache.cc:721-731 | a new cache is empty; a clone finds what its original finds and is not frozen |
| `CacheEffects.SetFrozenFreezes` | third/ctemplate-2.2/src/template_cache.cc:699-712 | only the frozen flag of one cache changes |
| `CacheEffects.StringIsFound` | third/ctemplate-2.2/src/template_cache.cc:336-378 | StringToTemplateCache as a whole: the string is found under its key exactly when the cache is not frozen, has no ready template there and the string parses, and otherwise nothing changes |
| `CacheEffects.FrozenIsUpToDate` | third/ctemplate-2.2/src/template_cache.cc:699-712 | Freeze as a whole: each entry is brought up to date with its file, and then the cache is frozen |
| `CacheEffects.EveryEntryIsFound` | third/ctemplate-2.2/src/template_cache.cc:280-378 | however the sections interleave, a cache never holds two entries for a key: each entry is the one found under its key |
| `CacheEffects.RunKeepsDistinct` | third/ctemplate-2.2/src/template_cache.cc:264-474 | no run of sections gives a key a second entry |
| `FrozenCaches.FrozenUntilCleared` | third/ctemplate-2.2/src/template_cache.cc:673-712 | over any run of whole operations that does not clear it, a frozen cache keeps its map, and a lookup of an absent key fails without loading |
| `FrozenCaches.PerformAllIsSafe` | third/ctemplate-2.2/src/template_cache.cc:616-712 | from any sound state whole operations never fault and never leave a marked entry in a frozen cache |
| `FrozenCaches.PerformKeepsFrozen` | third/ctemplate-2.2/src/template_cache.cc:280-334 | one whole operation leaves the maps of frozen caches it does not clear as they were |
| `FrozenCaches.ImmediateReloadCleans` | third/ctemplate-2.2/src/template_cache.cc:673-690 | an immediate reload leaves no entry marked, which is why Freeze starts with one |
| `FrozenCaches.FreezeIsSafe` | third/ctemplate-2.2/src/template_cache.cc:699-712 | Freeze ends with the cache frozen and clean |
| `FrozenCaches.ClearCacheIsSafe` | third/ctemplate-2.2/src/template_cache.cc:616-636 | ClearCache drops every entry's reference and unfreezes |
| `FrozenCaches.SectionKeepsFrozenIff` | third/ctemplate-2.2/src/template_cache.cc:280-378 | one critical section leaves a frozen cache frozen with its map exactly when it is none of three: a lookup on it that finds a marked entry, the second section of StringToTemplateCache for a key with no ready template, the swap in ClearCache |
| `FrozenCaches.RunKeepsFrozenIff` | third/ctemplate-2.2/src/template_cache.cc:280-712 | over every interleaving of sections, a frozen cache stays frozen with its map at every point exactly when no section of the run is one of those three for that map |
| `FrozenCaches.CleanRunKeepsFrozenIff` | third/ctemplate-2.2/src/template_cache.cc:699-712 | once frozen with no marked entry, exactly when no insertion of a string without a ready template and no ClearCache follows |
| `FrozenCaches.LazyReloadInsideFreeze` | third/ctemplate-2.2/src/template_cache.cc:699-712 | the first of the three can come about: a lazy reload between two sections of Freeze leaves a marked entry in the frozen cache, which a later lookup replaces |
| `FrozenCaches.StringInsertedAfterFreeze` | third/ctemplate-2.2/src/template_cache.cc:336-378 | so can the second: a string whose parsing spans a Freeze is added to the frozen map |
| `CacheMethods.CacheSystem.IncRef` | third/ctemplate-2.2/src/template_cache.cc:92-96 | one more reference |
| `CacheMethods.CacheSystem.DecRefN` | third/ctemplate-2.2/src/template_cache.cc:97-113 | n fewer references, the template deleted when none is left |
| `CacheMethods.CacheSystem.Delete` | third/ctemplate-2.2/src/template_cache.cc:593-614 | the loop over the map and the loop over the keys to erase do what the delete step says; true exactly when the cache is not frozen and an entry has the name |
| `CacheMethods.CacheSystem.DoneWithGetTemplatePtrs` | third/ctemplate-2.2/src/template_cache.cc:649-656 | the loop over get_template_calls_ does what its step says |
| `CacheMethods.CacheSystem.ClearCache` | third/ctemplate-2.2/src/template_cache.cc:616-636 | swap, then release one by one: what the whole operation says |
| `CacheMethods.CacheSystem.Clone` | third/ctemplate-2.2/src/template_cache.cc:721-731 | the copying loop does what the clone step says |
| `CacheMethods.CacheSystem.RefreshEntry` | third/ctemplate-2.2/src/template_cache.cc:302-324 | reload of a marked, changed entry in place |
| `CacheMethods.CacheSystem.GetTemplateLocked` | third/ctemplate-2.2/src/template_cache.cc:280-334 | the lookup as it runs equals its function |
| `CacheMethods.CacheSystem.LoadTemplate` | third/ctemplate-2.2/src/template_cache.cc:258-262 | answers whether the template is ready, taking no reference |
| `CacheMethods.CacheSystem.GetTemplate` | third/ctemplate-2.2/src/template_cache.cc:264-278 | hands out what the lookup found, with one reference and one counted call |
| `CacheMethods.CacheSystem.PinForExpand` | third/ctemplate-2.2/src/template_cache.cc:393-409 | the first section of an expansion |
| `CacheMethods.CacheSystem.UnpinAfterExpand` | third/ctemplate-2.2/src/template_cache.cc:412-415 | its last section |
| `CacheMethods.CacheSystem.InsertParsed` | third/ctemplate-2.2/src/template_cache.cc:336-378 | the section of StringToTemplateCache that inserts |
| `CacheMethods.CacheSystem.ReloadAllIfChanged` | third/ctemplate-2.2/src/template_cache.cc:673-690 | the loop over all entries does what the reload step says |
| `ArenaLayout.BumpKeepsLive` | third/ctemplate-2.2/src/base/arena.cc:284-303 | taking the next aligned bytes of the current block keeps all live allocations inside one block, apart and aligned |
| `ArenaLayout.PrivateBlockKeepsLive` | third/ctemplate-2.2/src/base/arena.cc:274-282 | so does an oversize allocation with a block of its own |
| `ArenaLayout.FreshBlockKeepsLive` | third/ctemplate-2.2/src/base/arena.cc:188-200 | so does starting a new block |
| `ArenaLayout.ReleaseKeepsLive` | third/ctemplate-2.2/src/base/arena.h:398-403 | so does giving an allocation up |
| `ArenaLayout.ResizeLastKeepsLive` | third/ctemplate-2.2/src/base/arena.cc:346-358 | so does growing or shrinking the last allocation within its block |
| `ArenaLayout.TrimKeepsLive` | third/ctemplate-2.2/src/base/arena.h:549-552 | so does using only the front of an older allocation |
| `ArenaLayout.OthersKeepBytes` | third/ctemplate-2.2/src/base/arena.cc:479-489 | a write inside one live allocation changes no byte of another |
| `ArenaLayout.SkippingOverageAligns` | third/ctemplate-2.2/src/base/arena.cc:284-294 | skipping the waste lands on an aligned address |
| `ArenaLayout.FreshBlockKeepsArena` | third/ctemplate-2.2/src/base/arena.cc:188-232 | block layout, room left and the sum of block sizes survive a new block |
| `ArenaLayout.PrivateBlockKeepsArena` | third/ctemplate-2.2/src/base/arena.cc:202-232 | and a private block |
| `Arenas.BaseArena.constructor` | third/ctemplate-2.2/src/base/arena.cc:90-135 | one block, nothing live, statistics exact, block size within the bits kept for it |
| `Arenas.BaseArena.Reset` | third/ctemplate-2.2/src/base/arena.cc:160-179 | all but the first block are freed, nothing is live, the statistics count one block, and the cursor is at its first aligned byte again |
| `Arenas.BaseArena.AllocNewBlock` | third/ctemplate-2.2/src/base/arena.cc:202-232 | array first, then overflow vector: the block list grows by one and the statistics by its size |
| `Arenas.BaseArena.Bump` | third/ctemplate-2.2/src/base/arena.h:386-395 | the allocation starts where asked and joins the live ones |
| `Arenas.BaseArena.AllocPrivate` | third/ctemplate-2.2/src/base/arena.cc:274-282 | a block of exactly the size asked, the cursor untouched |
| `Arenas.BaseArena.MakeNewBlock` | third/ctemplate-2.2/src/base/arena.cc:188-200 | the cursor moves to a new block |
| `Arenas.BaseArena.SkipWaste` | third/ctemplate-2.2/src/base/arena.cc:284-294 | the aligned place and the room there, zero when the waste takes it all |
| `Arenas.BaseArena.FindRoom` | third/ctemplate-2.2/src/base/arena.cc:284-303 | the first aligned place of the current block where the size fits; a new block exactly when there is none |
| `Arenas.BaseArena.AllocShared` | third/ctemplate-2.2/src/base/arena.cc:284-303 | an aligned allocation there, and where the cursor and the room are then |
| `Arenas.BaseArena.GetMemoryFallback` | third/ctemplate-2.2/src/base/arena.cc:265-303 | the three ways to allocate, which is taken when and where the allocation then lies; no bytes asked for gives NULL |
| `Arenas.BaseArena.GetMemory` | third/ctemplate-2.2/src/base/arena.h:386-395 | one new live allocation of the size and alignment asked, all others kept: at the cursor when there is room and no alignment is asked for, else in a block of its own exactly when it is larger than a quarter block, else in the current block exactly when it fits there aligned, else at the start of a new one |
| `Arenas.BaseArena.ReturnMemory` | third/ctemplate-2.2/src/base/arena.h:398-403 | only the last allocation gives its room back; either way it is live no longer |
| `Arenas.BaseArena.AdjustLastAlloc` | third/ctemplate-2.2/src/base/arena.cc:346-358 | resizes in place exactly when it is the last allocation and the room suffices; takes NULL and allocations shrunk to nothing as well. The arena stays in order unless another live allocation starts at that address |
| `Arenas.BaseArena.Shrink` | third/ctemplate-2.2/src/base/arena.h:549-552 | the allocation has its new size, and none of the others changes, unless it has no bytes and another starts where it was: then the bytes of that one are given back |
| `Arenas.BaseArena.Realloc` | third/ctemplate-2.2/src/base/arena.cc:479-489 | the first min(old, new) bytes are kept and no other live allocation's bytes change, for NULL and allocations shrunk to nothing too, unless it would grow in place over another that starts at its address |
| `Arenas.BaseArena.Move` | third/ctemplate-2.2/src/base/arena.cc:486-488 | Realloc's copy to a new place |
| `Arenas.BaseArena.MemCopy` | third/ctemplate-2.2/src/base/arena.cc:487-487 | copies byte by byte between two places that do not overlap |
| `Arenas.BaseArena.Store` | third/ctemplate-2.2/src/base/arena.h:509-519 | filling one allocation changes no other |
| `Arenas.BaseArena.FindBlock` | third/ctemplate-2.2/src/base/arena.cc:393-402 | the search from the newest block down finds the block that holds the address, or none does |
| `Arenas.BaseArena.GetMemoryWithHandle` | third/ctemplate-2.2/src/base/arena.cc:385-417 | a valid handle resolves to the address returned with it exactly when the block starts aligned for handles, as every malloc'ed one does; only a misaligned first block of the caller's can fail. The handle is invalid exactly when the place does not fit in 32 bits |
| `Arenas.BaseArena.HandleFor` | third/ctemplate-2.2/src/base/arena.cc:403-415 | the encoding of one allocation and when it resolves |
| `Arenas.BaseArena.HandleToPointer` | third/ctemplate-2.2/src/base/arena.cc:449-458 | resolving through array and vector is resolving in the list of blocks |
| `Arenas.BaseArena.SetHandleAlignment` | third/ctemplate-2.2/src/base/arena.cc:429-439 | accepted exactly for a power of two that divides a larger block size, in an empty arena |
| `Arenas.BaseArena.IndexToBlockNumbersBlocks` | third/ctemplate-2.2/src/base/arena.cc:243-253 | array and vector together number the blocks in order |
| `Arenas.HandleSurvivesNewBlocks` | third/ctemplate-2.2/src/base/arena.cc:449-458 | a handle keeps its meaning however many blocks come later |
| `Arenas.HandleIndexFitsInt` | third/ctemplate-2.2/src/base/arena.cc:449-458 | the block index cut from a valid handle fits in an int, as the cast takes for granted |
| `Arenas.HandlesDiffer` | third/ctemplate-2.2/src/base/arena.cc:403-415 | two places of a list of blocks never share a handle, wherever the blocks start |
| `Arenas.HandleResolves` | third/ctemplate-2.2/src/base/arena.cc:449-458 | a handle resolves to its place exactly when the block starts aligned for handles |
| `ArenaClients.ServeAll` | third/ctemplate-2.2/src/base/arena.cc:160-489 | for every run of allocations with any alignment or a handle, frees, shrinks, reallocations, writes and resets, malloc answering anew each time: the client's pieces share no byte and no valid handle, each is as its last request left it and only the piece a request names changes, exactly as far as the first request that resizes in place a piece of no bytes where another with bytes starts, which the client can see from its pieces; without one bytes_allocated is the sum of the block sizes, and each handle resolves to its piece exactly if that does not lie in a misaligned first block of the caller's |
| `ArenaClients.Serve` | third/ctemplate-2.2/src/base/arena.cc:265-489 | one request: afterwards the arena protects all pieces exactly if the request was none of that kind |
| `ArenaRuns.ClashIsClash` | third/ctemplate-2.2/src/base/arena.cc:346-358 | what the client sees, a piece of no bytes at the last address with another starting there, is what the arena's ledger says |
| `ArenaRuns.ClashBreaksOrder` | third/ctemplate-2.2/src/base/arena.cc:346-358 | after such a request two pieces overlap, or bytes of one are given out next |
| `ArenaRuns.OwnedIsSound` | third/ctemplate-2.2/src/base/arena.cc:265-303 | as long as the pieces are the live allocations they are apart, and each lies in one block and not among the bytes still to be given out |
| `ArenaRuns.OwnedIsOrderly` | third/ctemplate-2.2/src/base/arena.cc:385-417 | and no two share a byte or a valid handle |
| `ArenaClients.KeptResolves` | third/ctemplate-2.2/src/base/arena.cc:449-458 | through any run a handle goes on resolving as it did when it was made |
| `ArenaClients.EmptiedPieceGrows` | third/ctemplate-2.2/src/base/arena.cc:479-489 | an instance: a piece shrunk to nothing, an allocation at its address, and a reallocation of the first, which then overlaps the second |
| `ArenaClients.EmptiedPieceGivesBack` | third/ctemplate-2.2/src/base/arena.h:549-552 | another: shrinking the first again makes the bytes of the second the next to be given out |
| `ArenaLayout.ReopenLast` | third/ctemplate-2.2/src/base/arena.cc:346-358 | where nothing lives any more the place of the last allocation can be taken again |
| `ArenaHandles.DecodeUndoesEncode` | third/ctemplate-2.2/src/base/arena.cc:407-458 | decoding gives back block and offset, the offset rounded down to the alignment |
| `ArenaHandles.BlockIndexFitsInt` | third/ctemplate-2.2/src/base/arena.cc:449-458 | the arithmetic of that bound |
| `ArenaHandles.EncodeIsInjective` | third/ctemplate-2.2/src/base/arena.cc:407-415 | two aligned places never share a handle |
| `TemplateTokens.TokenMakesProgress` | third/ctemplate-2.2/src/template.cc:1874-2092 | with any delimiters, each token makes twice the bytes left plus the phase bit smaller: the parser ends on every input |
| `TemplateTrees.Fill` | third/ctemplate-2.2/src/template.cc:1711-1816 | filling a section never gives bytes back; the mutual recursion with AddToken is total |
| `TemplateTrees.AddToken` | third/ctemplate-2.2/src/template.cc:1711-1816 | neither does taking one token in, nested sections included |
| `TemplateReading.BuildTreeIff` | third/ctemplate-2.2/src/template.cc:2249-2285 | for every text, strip mode and tree: the text builds that tree exactly when some script of texts and markers, comments, pragmas and changes of delimiters, nested at any depth, is written as that text, can be read back and means that tree; every other text is TS_ERROR |
| `TemplateReading.FillReads` | third/ctemplate-2.2/src/template.cc:1711-1816 | whatever fills a section without error has been written by parts and an end marker of the section's name, with the delimiters in force there |
| `TemplateReading.TextReads` | third/ctemplate-2.2/src/template.cc:1882-1905 | text is cut before the last of overlapping start markers, and nowhere else |
| `TemplateReading.ModifiersRead` | third/ctemplate-2.2/src/template.cc:2019-2058 | the modifiers parsed, printed, are the text they were parsed from, and each exists and has a value exactly when it needs one |
| `TemplateReading.GlueReads` | third/ctemplate-2.2/src/template.cc:1834-1846 | what is passed over after a marker is a backslash before a newline, a newline where white space is stripped, or nothing |
| `TemplateReading.IndentationIs` | third/ctemplate-2.2/src/template.cc:1690-1708 | the indentation a text leaves is the blanks of its last line, if there is nothing else on it and it starts a line |
| `TemplateScripts.BuildReadsScript` | third/ctemplate-2.2/src/template.cc:2249-2285 | the tree built from a script as written holds exactly the nodes it means, with any delimiters it names on the way |
| `TemplateScripts.PartsFill` | third/ctemplate-2.2/src/template.cc:1711-1816 | a section is filled with exactly what the parts written in it mean, and the text after it is left |
| `TemplateScripts.ParseDelimitersIff` | third/ctemplate-2.2/src/template.cc:2399-2414 | a directive names two delimiters exactly when it is an equals sign, the start marker, a space, the end marker and an equals sign, with no space or equals sign in either |
| `TemplateScripts.TextStep` | third/ctemplate-2.2/src/template.cc:1882-1905 | text before a marker is one token, however much of a start marker it ends in |
| `TemplateScripts.PrintedModifiersParse` | third/ctemplate-2.2/src/template.cc:2019-2058 | printed modifiers parse to themselves, values included |
| `TemplateScripts.GlueIsEaten` | third/ctemplate-2.2/src/template.cc:1834-1846 | a backslash before a newline is dropped in every mode, a newline exactly where white space is stripped |
| `TemplateRoundTrip.BuildUndoesPrint` | third/ctemplate-2.2/src/template.cc:2249-2285 | every tree in normal form is what its printed form parses to, in each strip mode |
| `TemplateRoundTrip.BuildUndoesPrintBetween` | third/ctemplate-2.2/src/template.cc:2399-2414 | so is every tree printed between any two markers without spaces or equals signs that the text names first, when its texts and markers can be told apart with those |
| `TemplateRoundTrip.PrintIsInjective` | third/ctemplate-2.2/src/template.cc:1711-1816 | no two such trees print alike |
| `TemplateRoundTrip.CommentsAddNothing` | third/ctemplate-2.2/src/template.cc:1768-1782 | a comment or a change of delimiters between markers adds no node and changes none |
| `TemplateParser.MemMatch` | third/ctemplate-2.2/src/template.cc:417-434 | the first place the needle occurs, or none |
| `TemplateParser.CheckName` | third/ctemplate-2.2/src/template.cc:1822-1828 | whether every character may stand in a name |
| `TemplateParser.ReadModifier` | third/ctemplate-2.2/src/template.cc:2023-2057 | one modifier and the text after it |
| `TemplateParser.ReadModifiers` | third/ctemplate-2.2/src/template.cc:2019-2058 | all modifiers, or failure if one is unknown or its value missing or unwanted |
| `TemplateParser.Template.GetText` | third/ctemplate-2.2/src/template.cc:1882-1905 | the text token, passing over overlapping start markers |
| `TemplateParser.Template.SkipOverlaps` | third/ctemplate-2.2/src/template.cc:1893-1899 | of braces that overlap, the last pair opens the marker |
| `TemplateParser.Template.FindMarkerEnd` | third/ctemplate-2.2/src/template.cc:1924-1963 | the end of a marker, found specially for set-delimiters |
| `TemplateParser.Template.ReadMarker` | third/ctemplate-2.2/src/template.cc:1907-2069 | the token of a marker by its first character |
| `TemplateParser.Template.PassMarker` | third/ctemplate-2.2/src/template.cc:2071-2080 | past the marker, and past the newline it eats |
| `TemplateParser.Template.GetMarker` | third/ctemplate-2.2/src/template.cc:1953-2085 | a marker read, or the failure that ends the parse |
| `TemplateParser.Template.GetName` | third/ctemplate-2.2/src/template.cc:1907-2085 | the phase that reads a marker |
| `TemplateParser.Template.GetNextToken` | third/ctemplate-2.2/src/template.cc:1874-2092 | the tokenizer as it runs equals its function |
| `TemplateParser.Template.BuildTree` | third/ctemplate-2.2/src/template.cc:2249-2285 | the tree, or nothing when the state is TS_ERROR |
| `TemplateParser.SectionTemplateNode.FillAll` | third/ctemplate-2.2/src/template.cc:1652-1658 | repeated AddSubnode fills the section |
| `TemplateParser.SectionTemplateNode.AddSubnode` | third/ctemplate-2.2/src/template.cc:1711-1816 | one subnode more, or the end of the section or an error |
| `TemplateParser.SectionTemplateNode.Accept` | third/ctemplate-2.2/src/template.cc:1711-1816 | what each kind of token adds |
| `TemplateParser.SectionTemplateNode.AddSectionNode` | third/ctemplate-2.2/src/template.cc:1645-1667 | a nested section is filled before it is added |
| `TemplateStrip.VisibleIsKept` | third/ctemplate-2.2/src/template.cc:2437-2583 | stripping loses nothing but white space, in either mode and wherever delimiters change |
| `TemplateStrip.StripIsIdempotent` | third/ctemplate-2.2/src/template.cc:2499-2583 | stripping white space twice is stripping it once, whenever the second time ends |
| `TemplateStrip.StripTwice` | third/ctemplate-2.2/src/template.cc:2499-2583 | stripping white space again leaves the text as it is, or runs for ever exactly when the stripped text has a directive that names two empty markers |
| `TemplateStrip.StrippedFits` | third/ctemplate-2.2/src/template.cc:2527-2583 | no more is written than was read, so the buffer allocated suffices |
| `TemplateStrip.InsertedFits` | third/ctemplate-2.2/src/template.cc:2499-2525 | nor for any one line |
| `TemplateStrip.OutputIsStripped` | third/ctemplate-2.2/src/template.cc:2437-2448 | the output of white-space stripping has no newline and no white space at its ends |
| `TemplateStrip.LineEndsIff` | third/ctemplate-2.2/src/template.cc:2550-2575 | the search of a line for delimiter changes never ends exactly when one of the line's markers is the directive that names two empty markers |
| `TemplateStrip.StripEndsIff` | third/ctemplate-2.2/src/template.cc:2527-2583 | stripping runs for ever exactly when it is asked for at all and the text has such a directive, seen with the delimiters in force where it stands |
| `TemplateStrip.NoDelimitersAreNamed` | third/ctemplate-2.2/src/template.cc:2399-2414 | that directive is one text and no other: an equals sign, a space, an equals sign |
| `TemplateStrip.StripEnds` | third/ctemplate-2.2/src/template.cc:2550-2575 | so stripping ends for every text that does not hold these three characters |
| `TemplateStrip.EmptyMarkersNeverEnd` | third/ctemplate-2.2/src/template.cc:2550-2575 | for instance, it never ends on a text that is one such directive, which is left alone when there is no stripping to do |
| `TemplateStrip.JoinedLinesNameEmpty` | third/ctemplate-2.2/src/template.cc:2527-2583 | a text of two lines that strips to such a directive, so that stripping it again never ends |
| `StripLaws.TrimIs` | third/ctemplate-2.2/src/template.cc:2437-2448 | what is trimmed is all the white space at both ends, and only that |
| `StripLaws.RemovableIff` | third/ctemplate-2.2/src/template.cc:2452-2497 | a line may go exactly when it is blank or holds just one marker that begins with one of six characters, or a NUL as strchr finds that too, and ends with the line |
| `StripLaws.LineWrites` | third/ctemplate-2.2/src/template.cc:2499-2525 | what is written for a line in each mode: the line, the line or its one marker, the line without white space and newline |
| `StripLaws.FirstLineThenRest` | third/ctemplate-2.2/src/template.cc:2527-2583 | a text is stripped line by line, each with the delimiters the lines before it leave |
| `StripLaws.LastLineAlone` | third/ctemplate-2.2/src/template.cc:2534-2543 | so is a last line that no newline ends |
| `StripLaws.DirectiveChanges` | third/ctemplate-2.2/src/template.cc:2550-2575 | the first directive on a line changes the delimiters for what follows it |
| `StripLaws.OtherMarkerKeeps` | third/ctemplate-2.2/src/template.cc:2550-2575 | any other marker is passed over; two empty ones are found for ever |
| `StripLaws.NoMarkerKeeps` | third/ctemplate-2.2/src/template.cc:2550-2575 | a line without a whole marker leaves the delimiters as they are |
| `StripMethods.StripTemplateWhiteSpace` | third/ctemplate-2.2/src/template.cc:2437-2448 | pointer and length after both loops are those of the trimmed text |
| `StripMethods.IsBlankOrOnlyHasOneRemovableMarker` | third/ctemplate-2.2/src/template.cc:2452-2497 | whether the line goes, and what of it stays |
| `StripMethods.HasOneRemovableMarker` | third/ctemplate-2.2/src/template.cc:2463-2489 | blank, or exactly one removable marker that ends with the line |
| `StripMethods.LineToInsert` | third/ctemplate-2.2/src/template.cc:2499-2520 | the part of a line that is written and whether its newline is |
| `StripMethods.InsertLine` | third/ctemplate-2.2/src/template.cc:2499-2525 | writes within the room of the line it read |
| `StripMethods.FollowDelimiters` | third/ctemplate-2.2/src/template.cc:2550-2575 | the delimiters after a line; where the source stands still it says so |
| `StripMethods.StripBuffer` | third/ctemplate-2.2/src/template.cc:2527-2583 | line by line the new buffer holds what stripping means, never past what has been read |
| `DictionaryLikeness.TreeFrame` | third/ctemplate-2.2/src/template_dictionary.cc:269-358 | what a dictionary holds depends on the dictionaries of its owner from it onwards only |
| `DictionaryLikeness.UntouchedIsAlike` | third/ctemplate-2.2/src/template_dictionary.cc:907-1040 | a dictionary answers as before when only other owners' dictionaries changed |
| `DictionaryLikeness.SameValue` | third/ctemplate-2.2/src/template_dictionary.cc:907-934 | dictionaries that hold the same, with parents and owners that do, answer GetValue the same |
| `DictionaryLikeness.LikeSections` | third/ctemplate-2.2/src/template_dictionary.cc:1018-1040 | they iterate over like dictionaries for every section, template-global ones included, and hide the same ones |
| `DictionaryLikeness.LikeIncludes` | third/ctemplate-2.2/src/template_dictionary.cc:1003-1016 | and for every include |
| `DictionaryLikeness.AlikeGlobals` | third/ctemplate-2.2/src/template_dictionary.cc:916-925 | and reach like template-global dictionaries |
| `DictionaryLikeness.RootsAlike` | third/ctemplate-2.2/src/template_dictionary.cc:276-282 | two top-level dictionaries that hold the same are alike |
| `DictionaryLikeness.FollowAlike` | third/ctemplate-2.2/src/template_dictionary.cc:269-358 | the same path of sections and includes leads to like dictionaries, or to none on both sides |
| `Dictionaries.SameTreeIff` | third/ctemplate-2.2/src/template_dictionary.cc:293-345 | two dictionaries hold the same exactly when variables, file names, sections, includes and template-globals do, list by list |
| `DictionaryChanges.ChangeKeeps` | third/ctemplate-2.2/src/template_dictionary.cc:426-667 | every setter keeps the store in order and touches no dictionary of another top-level one |
| `DictionaryChanges.CallsKeep` | third/ctemplate-2.2/src/template_dictionary.cc:426-667 | so does every run of setters |
| `DictionaryChanges.CallsElsewhereAreNotNoticed` | third/ctemplate-2.2/src/template_dictionary.cc:426-667 | whatever is done to other top-level dictionaries, this one answers as before |
| `DictionarySetters.NearestValueWins` | third/ctemplate-2.2/src/template_dictionary.cc:907-934 | of the dictionary, its parents in order and the template-global one, the nearest that has the variable gives the value; if none has, the global value or the empty one shows |
| `DictionarySetters.NearestSectionWins` | third/ctemplate-2.2/src/template_dictionary.cc:1018-1040 | the same for the list of a section, which is hidden exactly if none has it |
| `DictionarySetters.NearestIncludeWins` | third/ctemplate-2.2/src/template_dictionary.cc:1003-1016 | the same for an include, without the template-global one |
| `DictionarySetters.SetValueIsSeen` | third/ctemplate-2.2/src/template_dictionary.cc:426-430 | a value set is the value got, whatever was there before, in the dictionary and wherever no nearer one has the variable; every other value, section, include and file name answers as before |
| `DictionarySetters.SetTemplateGlobalValueIsSeen` | third/ctemplate-2.2/src/template_dictionary.cc:502-507 | a template-global value is seen from every dictionary of the owner where no dictionary up the parents has the variable, and all else answers as before |
| `DictionarySetters.AddSectionIsSeen` | third/ctemplate-2.2/src/template_dictionary.cc:562-580 | the section's own list has one dictionary more at its end, seen wherever no nearer one has the section; the new one is empty and answers as its parent; all else answers as before |
| `DictionarySetters.ShowSectionIsSeen` | third/ctemplate-2.2/src/template_dictionary.cc:583-592 | nothing changes if the dictionary has the section itself; else its list is one empty dictionary, seen in the same way |
| `DictionarySetters.ShowTemplateGlobalSectionIsSeen` | third/ctemplate-2.2/src/template_dictionary.cc:594-600 | the same for the template-global dictionary: the list shows where no dictionary up the parents has the section |
| `DictionarySetters.SetValueAndShowSectionIsSeen` | third/ctemplate-2.2/src/template_dictionary.cc:610-617 | nothing for an empty value; else the section has one dictionary more, where the variable has the value and all others answer as in its parent |
| `DictionarySetters.AddIncludeIsSeen` | third/ctemplate-2.2/src/template_dictionary.cc:638-653 | the include's own list has one dictionary more, which is empty and has no parent; all else answers as before |
| `DictionarySetters.SetFilenameIsSeen` | third/ctemplate-2.2/src/template_dictionary.cc:665-667 | the file name set is the one read, and all else answers as before |
| `DictionarySetters.GlobalIsNotNoticed` | third/ctemplate-2.2/src/template_dictionary.cc:116-123 | making the template-global dictionary changes no answer |
| `DictionaryMethods.TemplateDictionaries.Create` | third/ctemplate-2.2/src/template_dictionary.cc:219-232 | a new top-level dictionary, its own owner |
| `DictionaryMethods.TemplateDictionaries.SetGlobalValue` | third/ctemplate-2.2/src/template_dictionary.cc:524-541 | the value shows in exactly those dictionaries where neither they, their parents nor their template-global dictionary have the variable; all else reads as before |
| `DictionaryMethods.TemplateDictionaries.GetValue` | third/ctemplate-2.2/src/template_dictionary.cc:907-934 | own variables, then parents, then template-global, then global, then empty |
| `DictionaryMethods.TemplateDictionaries.IsHiddenSection` | third/ctemplate-2.2/src/template_dictionary.cc:936-952 | hidden exactly when neither the parents nor the template-global dictionary has it |
| `DictionaryMethods.TemplateDictionaries.IsHiddenTemplate` | third/ctemplate-2.2/src/template_dictionary.cc:954-961 | hidden exactly when no parent has it |
| `DictionaryMethods.TemplateDictionaries.CreateSectionIterator` | third/ctemplate-2.2/src/template_dictionary.cc:1018-1040 | the nearest list of dictionaries |
| `DictionaryMethods.TemplateDictionaries.CreateTemplateIterator` | third/ctemplate-2.2/src/template_dictionary.cc:1003-1016 | the nearest list for an include |
| `DictionaryMethods.TemplateDictionaries.SetValue` | third/ctemplate-2.2/src/template_dictionary.cc:426-430 | map update of one dictionary |
| `DictionaryMethods.TemplateDictionaries.LazyCreateTemplateGlobalDict` | third/ctemplate-2.2/src/template_dictionary.cc:116-123 | one template-global dictionary, made on first use |
| `DictionaryMethods.TemplateDictionaries.SetTemplateGlobalValue` | third/ctemplate-2.2/src/template_dictionary.cc:502-507 | a value in the owner's template-global dictionary |
| `DictionaryMethods.TemplateDictionaries.AddSectionDictionary` | third/ctemplate-2.2/src/template_dictionary.cc:562-580 | a new child at the end of the section's list |
| `DictionaryMethods.TemplateDictionaries.ShowSection` | third/ctemplate-2.2/src/template_dictionary.cc:583-592 | one empty child unless there are some |
| `DictionaryMethods.TemplateDictionaries.ShowTemplateGlobalSection` | third/ctemplate-2.2/src/template_dictionary.cc:594-600 | the same in the template-global dictionary |
| `DictionaryMethods.TemplateDictionaries.SetValueAndShowSection` | third/ctemplate-2.2/src/template_dictionary.cc:610-617 | nothing for an empty value, else one child with it |
| `DictionaryMethods.TemplateDictionaries.AddIncludeDictionary` | third/ctemplate-2.2/src/template_dictionary.cc:638-653 | a new dictionary without a parent |
| `DictionaryMethods.TemplateDictionaries.SetFilename` | third/ctemplate-2.2/src/template_dictionary.cc:665-667 | the file name of an include |
| `DictionaryMethods.TemplateDictionaries.InternalMakeCopy` | third/ctemplate-2.2/src/template_dictionary.cc:269-348 | the new dictionary holds what the old one does, at any depth, with the parent and owner given; older dictionaries are untouched |
| `DictionaryMethods.TemplateDictionaries.CopyVariables` | third/ctemplate-2.2/src/template_dictionary.cc:293-301 | all variables, one by one |
| `DictionaryMethods.TemplateDictionaries.CopyGlobal` | third/ctemplate-2.2/src/template_dictionary.cc:302-307 | the template-global dictionary, owned by the copy |
| `DictionaryMethods.TemplateDictionaries.CopySections` | third/ctemplate-2.2/src/template_dictionary.cc:308-324 | every section's dictionaries, children of the copy |
| `DictionaryMethods.TemplateDictionaries.CopyIncludes` | third/ctemplate-2.2/src/template_dictionary.cc:325-342 | every include's dictionaries, without parents |
| `DictionaryMethods.TemplateDictionaries.CopyList` | third/ctemplate-2.2/src/template_dictionary.cc:315-322 | the copies in order |
| `DictionaryMethods.TemplateDictionaries.MakeCopy` | third/ctemplate-2.2/src/template_dictionary.cc:350-358 | refused exactly below the top level; otherwise the copy is a new owner and answers as the original does |
| `ExpansionOutput.TextWritesItself` | third/ctemplate-2.2/src/template.cc:952-958 | a text without a start marker is parsed to a template that writes just that text, but for the template's own modifier |
| `ExpansionOutput.FlatTemplateWrites` | third/ctemplate-2.2/src/template.cc:1025-1049 | a template of texts, variables and pragmas writes the texts with the values found, modified as the variables say, in between |
| `ExpansionOutput.WrittenTemplateWrites` | third/ctemplate-2.2/src/template.cc:2249-2285 | so does one built from a text with comments and changes of delimiters in it |
| `ExpansionOutput.TemplateWritesNodes` | third/ctemplate-2.2/src/template.cc:2712-2767 | a template writes its nodes in order with its own modifier over all of it; one that cannot be had writes nothing and is an error |
| `ExpansionOutput.ShownSectionWrites` | third/ctemplate-2.2/src/template.cc:1466-1507 | a shown section is written once for each of its dictionaries, in order, knowing which is the last |
| `ExpansionOutput.OnceWithSeparatorWrites` | third/ctemplate-2.2/src/template.cc:1428-1464 | for any dictionary but the last the children come in order, those of the separator right after the place it stands at |
| `ExpansionOutput.LastOnceWrites` | third/ctemplate-2.2/src/template.cc:1428-1464 | for the last one, or without a separator, the children come in order and nothing else does |
| `ExpansionOutput.SeparatorIs` | third/ctemplate-2.2/src/template.cc:1659-1667 | the separator is the last subsection named after the section |
| `ExpansionOutput.HiddenWritesNothing` | third/ctemplate-2.2/src/template.cc:1466-1483 | a hidden section or include writes nothing |
| `ExpansionOutput.ShownIncludeWrites` | third/ctemplate-2.2/src/template.cc:1172-1217 | a shown include is written once for each of its dictionaries, in order |
| `ExpansionOutput.IncludeWritesTemplate` | third/ctemplate-2.2/src/template.cc:1230-1283 | what one of them writes: nothing without a file name, the template's output as it is where it is neither modified nor indented, else nothing of one in error and all of another, modified and then indented |
| `ExpansionOutput.InOrderIs` | third/ctemplate-2.2/src/template.cc:1440-1456 | outputs in order: the texts one after the other, free of errors when all are, and there when all have ended |
| `ExpansionOutput.NodesAndSeparator` | third/ctemplate-2.2/src/template.cc:1440-1456 | the children with the separator at any place |
| `ExpansionLaws.CopyKeepsMeaning` | third/ctemplate-2.2/src/template_dictionary.cc:269-358 | a copy answers, and every template expands with it, as the original did when copied, whatever calls are made on the original since |
| `ExpansionLaws.AnswersAlike` | third/ctemplate-2.2/src/template_dictionary.cc:907-1040 | at the end of every path the copy gives the same value, hides the same sections and includes, iterates over like dictionaries and names the same file |
| `ExpansionLaws.TemplateAlike` | third/ctemplate-2.2/src/template.cc:1172-1283 | every template expands to the same output and result with like dictionaries |
| `ExpansionLaws.NodeAlike` | third/ctemplate-2.2/src/template.cc:1466-1507 | so does every node |
| `ExpansionEnds.ExpansionEndsIff` | third/ctemplate-2.2/src/template.cc:1172-1507 | expansion ends exactly when no include that is reached reaches itself, following the dictionaries of sections, their separators and includes; then at a depth no greater than the number of dictionaries, and otherwise at no depth at all |
| `ExpansionEnds.TemplateRunsOut` | third/ctemplate-2.2/src/template.cc:1172-1283 | a template goes too deep exactly when one it calls does with one less to go |
| `ExpansionEnds.NodeRunsOut` | third/ctemplate-2.2/src/template.cc:1428-1507 | a node does exactly when one of the includes it reaches does |
| `ExpansionEnds.PathToTheEnd` | third/ctemplate-2.2/src/template.cc:1172-1217 | going too deep follows a path of as many includes, each called by the one before |
| `ExpansionEnds.NeverEnds` | third/ctemplate-2.2/src/template.cc:1172-1217 | on a path that comes back to an include, expansion ends at no depth |
| `ExpansionEnds.TemplateSettled` | third/ctemplate-2.2/src/template.cc:2712-2767 | once expansion ends, its output does not depend on the bound on inclusion |
| `ExpansionEnds.ExpansionEnds` | third/ctemplate-2.2/src/template.cc:1172-1217 | with no template-global section no include reaches itself, so expansion ends for every set of templates, however they include each other, no deeper than there are dictionaries above the first root |
| `ExpansionEnds.NodeGoesDeeper` | third/ctemplate-2.2/src/template.cc:1428-1507 | because every include a node reaches lies above the root the node was expanded under |
| `ExpansionEnds.IncludesAreDeeper` | third/ctemplate-2.2/src/template_dictionary.cc:638-653 | an include's dictionaries lie above the root they are found under |
| `ExpansionEnds.SectionsStayBelow` | third/ctemplate-2.2/src/template_dictionary.cc:562-580 | a section's dictionaries keep the include root |
| `ExpansionEnds.GlobalSectionLoops` | third/ctemplate-2.2/src/template_dictionary.cc:594-600 | an instance where one does: a template-global section and a template that includes itself |
| `TemplateExpander.Expand` | third/ctemplate-2.2/src/template.cc:1025-1049 | what a node writes to the emitter, and whether it was free of errors |
| `TemplateExpander.ExpandNext` | third/ctemplate-2.2/src/template.cc:1445-1456 | a node, and its separator once more where one is due |
| `TemplateExpander.ExpandSectionOnce` | third/ctemplate-2.2/src/template.cc:1428-1464 | all children in order, the separator after each but the last dictionary |
| `TemplateExpander.ExpandSectionEach` | third/ctemplate-2.2/src/template.cc:1497-1507 | once for each dictionary |
| `TemplateExpander.ExpandFile` | third/ctemplate-2.2/src/template.cc:2712-2767 | nothing and false when the template cannot be had |
| `TemplateExpander.ExpandIncludes` | third/ctemplate-2.2/src/template.cc:1172-1217 | once for each include dictionary |
| `TemplateExpander.ExpandInclude` | third/ctemplate-2.2/src/template.cc:1230-1283 | output in error is dropped where it would be modified, as an indented include always is, and kept where not |
| `TemplateExpander.PrefixOneLine` | third/ctemplate-2.2/src/template_modifiers.cc:778-806 | no prefix comes within a line |
| `TemplateExpander.PrefixAfterEnd` | third/ctemplate-2.2/src/template_modifiers.cc:778-806 | one comes after each line end, LF, CR LF or CR |
| `TemplateExpander.PrefixLine` | third/ctemplate-2.2/src/template_modifiers.cc:778-806 | the loop over lines, which may end in LF, CR LF or CR, puts the indentation after each |
| `SmallMaps.TakeAll` | third/ctemplate-2.2/src/base/small_map.h:124-454 | through every run of calls on two small maps and copies between them or onto themselves, for any array size and across the conversion, they answer as plain maps do |
| `SmallMaps.Take` | third/ctemplate-2.2/src/base/small_map.h:124-454 | one call or copy |
| `SmallMaps.ToMapIs` | third/ctemplate-2.2/src/base/small_map.h:507-525 | pairs with distinct keys come to one map only |
| `SmallMaps.ErasePair` | third/ctemplate-2.2/src/base/small_map.h:431-443 | putting the last pair in the erased one's place erases exactly its key |
| `SmallMaps.AppendPair` | third/ctemplate-2.2/src/base/small_map.h:347-350 | a pair in the next slot adds its key |
| `SmallMaps.OverwritePair` | third/ctemplate-2.2/src/template_dictionary.cc:177-179 | overwriting through the iterator updates exactly its key |
| `SmallMaps.SmallMap.constructor` | third/ctemplate-2.2/src/base/small_map.h:119-121 | an empty map |
| `SmallMaps.SmallMap.Find` | third/ctemplate-2.2/src/base/small_map.h:304-316 | an iterator at the key exactly when it is there, else the end |
| `SmallMaps.SmallMap.Deref` | third/ctemplate-2.2/src/base/small_map.h:180-194 | the key's value |
| `SmallMaps.SmallMap.Assign` | third/ctemplate-2.2/src/template_dictionary.cc:161-164 | map update through an iterator |
| `SmallMaps.SmallMap.ConvertToRealMap` | third/ctemplate-2.2/src/base/small_map.h:507-525 | the same map, the array's slots all destroyed |
| `SmallMaps.SmallMap.Append` | third/ctemplate-2.2/src/base/small_map.h:347-350 | Init of an empty slot |
| `SmallMaps.SmallMap.Reference` | third/ctemplate-2.2/src/base/small_map.h:333-354 | operator[] finds from the back or adds the default value |
| `SmallMaps.SmallMap.Insert` | third/ctemplate-2.2/src/base/small_map.h:357-378 | adds exactly when the key is new, and never overwrites |
| `SmallMaps.SmallMap.EraseAt` | third/ctemplate-2.2/src/base/small_map.h:431-443 | map without the key; keys stay distinct and slots full up to the size |
| `SmallMaps.SmallMap.Erase` | third/ctemplate-2.2/src/base/small_map.h:445-450 | whether there was one |
| `SmallMaps.SmallMap.Clear` | third/ctemplate-2.2/src/base/small_map.h:419-428 | empty, back to the array |
| `SmallMaps.SmallMap.Count` | third/ctemplate-2.2/src/base/small_map.h:456-462 | the number of keys |
| `SmallMaps.SmallMap.CopyFrom` | third/ctemplate-2.2/src/base/small_map.h:124-137 | the same map as the source, which stays as it was |
| `SmallMaps.SmallMap.HashAssign` | third/ctemplate-2.2/src/template_dictionary.cc:161-164 | m[key] = value is map update |
| `SmallMaps.SmallMap.HashInsert` | third/ctemplate-2.2/src/template_dictionary.cc:166-180 | insert, then overwrite if present, is map update |
| `SmallMaps.Make` | third/ctemplate-2.2/src/base/small_map.h:304-454 | each call answers and changes the map as a plain map's would |
| `HttpWriter.OMessageWriter.WriteStartLine` | src/http/outgoing/Response.cc:6-9 | version, code and name on the wire |
| `HttpWriter.OMessageWriter.WriteHeader` | src/http/outgoing/Message.cc:152-167 | the start line if still missing, then the header; refused after the headers |
| `HttpWriter.OMessageWriter.EnterBody` | src/http/outgoing/Message.cc:50-76 | the move to the body, with the empty line unless the body is buffered |
| `HttpWriter.OMessageWriter.WritePayloadData` | src/http/outgoing/Message.cc:67-95 | buffered, sent in a chunk or sent as it is, by what the body is; nothing changes when it is refused |
| `HttpWriter.OMessageWriter.Done` | src/http/outgoing/Message.cc:110-150 | the length and the buffered body, or the last chunk; refused for a body of known size, after the empty line where the head is not over; and the state it leaves |
| `HttpWriter.RespondBuffered` | src/http/outgoing/Message.cc:67-167 | headers, payload writes and one Done send exactly the sized message, none or any number of writes |
| `HttpWriter.RespondSized` | src/http/outgoing/Message.cc:67-90 | with a size given beforehand the payloads are sent as they come after the head, whether chunks were asked for or not |
| `HttpWriter.RespondChunked` | src/http/outgoing/Message.cc:50-150 | the same calls send exactly the chunked message |
| `ChunkedCoding.ChunkedBodyDecodes` | src/http/outgoing/Message.cc:82-88 | by RFC 7230 section 4.1 the body decodes to the payloads with nothing left over exactly when no payload write was empty |
| `ChunkedCoding.ChunkedMessageDecodes` | src/http/outgoing/Message.cc:67-150 | after the header block every chunked message decodes to its payloads, with no writes at all too |
| `ChunkedCoding.EmptyChunkEndsBody` | src/http/outgoing/Message.cc:82-88 | an empty write reads as the last chunk |
| `ChunkedCoding.ChunkDecodes` | src/http/outgoing/Message.cc:82-88 | one chunk decodes to its data |
| `HttpWire.SizedMessageReads` | src/http/outgoing/Message.cc:67-167 | by RFC 7230 section 3 a sized response is a status line of version HTTP/1.1 with its code and name, its header fields, a Content-Length that is the length of its body, and its body |
| `HttpWire.ChunkedMessageReads` | src/http/outgoing/Message.cc:50-150 | a chunked one is its status line, its header fields and a body that decodes to the payloads |
| `HttpWire.HeadReads` | src/http/outgoing/Response.cc:6-9 | the head of a response reads back by the grammar, and what follows it is left |
| `HttpWire.FieldReads` | src/http/outgoing/Message.cc:152-167 | a header line reads back as its name and value |
| `HttpHead.ReadHead` | src/http/Response.cc:99-134 | however the head is cut, the reader gets through all of it or stops at the first line end a fragment splits, and which tells exactly where the cuts were |
| `HttpHead.StartLineParses` | src/http/Response.cc:20-30 | the status line parses to code and name, with its whole line end or half of it |
| `HttpHead.StartLineReadsBackIff` | src/http/Response.cc:20-30 | a status whose name keeps to its line reads back as it was sent exactly when the code has sixteen bits and the name is not empty and does not end in white space |
| `HttpHead.HeaderParses` | include/rikitiki/http/parsing/Utils.h:15-36 | a header line parses to its name and value |
| `HttpHead.HeaderReadsBackIff` | include/rikitiki/http/parsing/Utils.h:15-36 | a header of any characters reads back as it was sent exactly when its name has no white space, colon or NUL and its value no CR, LF, NUL or leading blank |
| `HttpHead.FeedFirstLine` | src/http/Response.cc:106-125 | a fragment with a line's end in it hands on exactly that line |
| `HttpHead.SplitStep` | src/http/Response.cc:111-113 | a fragment that ends between CR and LF hands the line on too early |
| `HttpHead.ExtractSizeIs` | src/http/Message.cc:27-29 | the length printed is the length read |
| `HttpRoundTrip.RoundTrip` | src/http/incoming/Message.cc:33-110 | every sized message arrives whole: finished, same status, headers folded with the length, same body, in any fragments that split no line end of the head |
| `HttpRoundTrip.ReadsBackExactly` | src/http/Response.cc:99-134 | for every message and every fragmentation, exactly which cuts are harmless: none in a line end of the head, or none before the content length and either no body or a body that equals what is taken in its place, with a fragment that ends there |
| `HttpRoundTrip.ReadsTaken` | src/http/incoming/Message.cc:33-110 | when no line end before the content length is split, the message is read to its end with exactly this for a body: the bytes from where the head was taken to end, up to the end of the fragment with which there are enough |
| `HttpRoundTrip.EarlySplitNeverFinishes` | src/http/Response.cc:106-125 | a cut inside the line end of the start line or a user header leaves the reader waiting, and whatever more is sent changes nothing |
| `HttpRoundTrip.LateSplitGarblesBody` | src/http/incoming/Message.cc:46-52 | a cut inside one of the last two line ends finishes with the rest of that line end, and of the head, read as the first bytes of the body: where it starts and all it holds |
| `HttpRoundTrip.AfterSplit` | src/http/Response.cc:106-125 | the second half of a split line end ends the head, together with the character after it if that is of a line end and in the same fragment |
| `HttpRoundTrip.RepeatedHeadersAreJoined` | src/http/Header.cc:35-41 | a repeated header comes to its values joined by commas, leading empty ones left out |
| `HttpRoundTrip.ReadBody` | src/http/incoming/Message.cc:78-93 | a body of known size is counted down over any fragments |
| `HttpRoundTrip.NeverFinishes` | src/http/incoming/Message.cc:62-99 | without a length nothing of the body is read |
| `HttpRoundTrip.Exchange` | src/http/outgoing/Message.cc:67-167 | the writer's calls and the reader's loop, joined by any transport that cuts no line end |
| `HttpRoundTrip.LengthIsRead` | src/http/Message.cc:27-33 | the reader finds the length the writer gave |
| `HttpMethods.SkipWhile` | include/rikitiki/http/parsing/Utils.h:7-13 | the end of a run of characters of a kind |
| `HttpMethods.ReadHeaderName` | include/rikitiki/http/parsing/Utils.h:15-27 | the name and where the value starts |
| `HttpMethods.ReadHeaderValue` | include/rikitiki/http/parsing/Utils.h:28-36 | the value as far as the line's end |
| `HttpMethods.PopSpaces` | src/http/Response.cc:26-27 | white space popped off the end |
| `HttpMethods.IMessage.constructor` | include/rikitiki/http/parsing/BufferedReader.h:8-24 | a reader before its start line |
| `HttpMethods.IMessage.SetStartline` | src/http/Response.cc:20-30 | status code in sixteen bits and name; refused where the source reads past its string |
| `HttpMethods.IMessage.AddHeader` | src/http/Header.cc:35-41 | merging a repeated header |
| `HttpMethods.IMessage.OnHeaderLine` | src/http/incoming/Message.cc:53-60 | one header line |
| `HttpMethods.IMessage.OnBlankLine` | src/http/incoming/Message.cc:46-52 | the end of the headers |
| `HttpMethods.IMessage.OnBodyData` | src/http/incoming/Message.cc:62-100 | one piece of the body |
| `HttpMethods.IMessage.OnBufferedData` | src/http/incoming/Message.cc:33-110 | the state machine, step by step, and its result |
| `HttpMethods.IMessage.OnData` | src/http/Response.cc:99-134 | the loop over the data, and its result |
| `HttpMethods.ReadFragments` | src/http/Response.cc:99-134 | fragment after fragment until the reader is done |
| `WebSocketFrames.MessageDecodes` | src/websocket/websocketContext.cc:51-89 | by RFC 6455 sections 5.2 and 5.4 what is sent decodes to one message with the opcode and exactly the bytes, for any nonempty buffer and data opcode |
| `WebSocketFrames.FragmentsDecode` | src/websocket/websocketContext.cc:55-88 | later frames have opcode 0 and only the last one FIN |
| `WebSocketFrames.FrameDecodes` | src/websocket/websocketContext.cc:62-77 | one frame decodes to its payload |
| `WebSocketFrames.LengthDecodes` | src/websocket/websocketContext.cc:62-77 | each length has its least form, greatest byte first |
| `WebSocketFrames.NetworkOrder` | src/websocket/websocketContext.cc:13-29 | htons and htonll put the greatest byte first on hosts of either byte order |
| `WebSocketFrames.EmptyMessageIsLost` | src/websocket/websocketContext.cc:55-55 | a message of no bytes is not sent |
| `WebSocketWriter.WebsocketContext.FillHeader` | src/websocket/websocketContext.cc:62-77 | the ten-byte array holds opcode and length in the form the size calls for |
| `WebSocketWriter.WebsocketContext.CopyBytes` | src/websocket/websocketContext.cc:70-76 | memcpy into the header |
| `WebSocketWriter.WebsocketContext.SendFrame` | src/websocket/websocketContext.cc:80-84 | header and payload when the socket takes both writes, else one close after a proper part of them |
| `WebSocketWriter.WebsocketContext.Write` | src/websocket/websocketContext.cc:51-89 | all frames sent and nothing closed exactly when the socket takes every one of the two writes for each frame, else a proper prefix sent and the connection closed once |
| `FormContents.EncodeRoundTrip` | src/connContext.cc:142-169 | decoding the joined, escaped pairs gives each name its values in order exactly when no value is empty; an empty one fails the source's assertion |
| `FormContents.UnescapeIsInverse` | src/connContext.cc:124-140 | unescaping undoes escaping for every byte string, NUL, '+', '%', '&' and '=' included |
| `FormContents.EscapeIsSent` | third/ctemplate-2.2/src/template_modifiers.cc:709-739 | replacing plus signs turns escaped text into what the decoder expects |
| `FormContents.ScanWire` | src/connContext.cc:153-168 | the walk over names and values inserts the pairs one by one |
| `FormContents.ScanTo` | src/connContext.cc:153-168 | up to an equals sign is the name from there on; up to an ampersand is a value of the last name, and an empty one fails the assertion |
| `FormContents.SafeIsKept` | third/ctemplate-2.2/src/template_modifiers.cc:709-739 | safe characters stay and spaces become plus signs |
| `FormContents.OnlySafeComesOut` | third/ctemplate-2.2/src/template_modifiers.cc:709-739 | for any bytes only safe characters, plus signs and percent signs with two upper-case digits come out |
| `FormContents.TwoCharactersAre` | src/connContext.cc:128-135 | what any two characters after a percent sign stand for, as much of them as strtol reads |
| `FormContents.HexByteIs` | third/ctemplate-2.2/src/template_modifiers.cc:729-731 | two upper-case digits read back as the byte |
| `FormMethods.UrlQueryEscape` | third/ctemplate-2.2/src/template_modifiers.cc:709-739 | safe runs and single escapes come to the escaped text |
| `FormMethods.UnescapeString` | src/connContext.cc:124-140 | the value, with the buffer as it was found; refused for an empty stretch |
| `FormMethods.ReadEscape` | src/connContext.cc:128-135 | two digits read with a NUL put after them and taken away again |
| `FormMethods.ReplacePlusIn` | src/connContext.cc:150-150 | every plus sign becomes a space |
| `FormMethods.MapPosted` | src/connContext.cc:142-169 | the posted values, or the assertion's failure |
| `JavascriptEscapes.OutputIsSafe` | third/ctemplate-2.2/src/template_modifiers.cc:589-650 | whatever bytes come in, no quote, apostrophe, CR, LF, '<', '>', '&', '=' and no U+2028 or U+2029 comes out |
| `JavascriptEscapes.EscapeIsLiteralText` | third/ctemplate-2.2/src/template_modifiers.cc:589-650 | and every backslash starts an escape sequence |
| `JavascriptEscapes.LiteralDenotesInput` | third/ctemplate-2.2/src/template_modifiers.cc:556-650 | the literal denotes the input bytes exactly when no escaped character came in an overlong form |
| `JavascriptEscapes.HarmlessIsKept` | third/ctemplate-2.2/src/template_modifiers.cc:589-650 | a text without the code units concerned comes out as it came in |
| `JavascriptEscapes.UnitOfItsBytes` | third/ctemplate-2.2/src/template_modifiers.cc:529-585 | a code unit of two or three bytes, overlong or not, is read from its bytes whatever follows |
| `JavascriptEscapes.UnitOfOneByte` | third/ctemplate-2.2/src/template_modifiers.cc:529-585 | a byte that begins none stands alone, and one whose tail bytes are missing is malformed |
| `JavascriptEscapes.UnitIsOwnOrTails` | third/ctemplate-2.2/src/template_modifiers.cc:529-585 | a unit always advances and never takes an ASCII byte into a longer one |
| `JavascriptEscapes.NoSeparatorAcross` | third/ctemplate-2.2/src/template_modifiers.cc:589-650 | bytes that stay never make up a separator with what follows |
| `JavascriptEscapes.ReadCodeUnit` | third/ctemplate-2.2/src/template_modifiers.cc:556-585 | the unit at a place, tail by tail in sixteen bits, and the place after it |
| `JavascriptEscapes.Modify` | third/ctemplate-2.2/src/template_modifiers.cc:589-650 | runs and escapes come to the escaped text |
| `SnippetEscapes.EscapeIsSnippet` | third/ctemplate-2.2/src/template_modifiers.cc:240-332 | every '<' in the output begins a permitted tag; each kind opens and closes by turns and ends closed; no quote, '>' or line break stands outside tags, and no '&' before '{' |
| `SnippetEscapes.TagStepIs` | third/ctemplate-2.2/src/template_modifiers.cc:254-306 | a tag is let through only when that keeps the tags balanced |
| `SnippetEscapes.ClosingIsSnippet` | third/ctemplate-2.2/src/template_modifiers.cc:220-233 | the closing tags close exactly what is open |
| `SnippetEscapes.WithoutIs` | third/ctemplate-2.2/src/template_modifiers.cc:205-218 | removing a tag removes just that one |
| `SnippetEscapes.WithoutKeepsOrder` | third/ctemplate-2.2/src/template_modifiers.cc:205-218 | the other tags stay in order |
| `SnippetReading.ReadsAsInput` | third/ctemplate-2.2/src/template_modifiers.cc:240-332 | the output means the input: read by a reader that decodes the five entities it is what the input is read as, with blanks for tabs and line breaks, followed by the closing tags of the tags left open |
| `SnippetReading.KeepsTextIff` | third/ctemplate-2.2/src/template_modifiers.cc:240-332 | that is the input's own text exactly when no entity stands in the input, as one is passed on |
| `SnippetReading.TagsLetThrough` | third/ctemplate-2.2/src/template_modifiers.cc:254-306 | the tags of the output are exactly the permitted tags of the input that keep the balance, in order, and the closing ones |
| `SnippetReading.TagStepExactly` | third/ctemplate-2.2/src/template_modifiers.cc:254-306 | a tag is let through exactly when it is permitted and keeps the balance; else its first character is written as an entity |
| `SnippetReading.ClosersInReverse` | third/ctemplate-2.2/src/template_modifiers.cc:220-233 | one closing tag for each open one, the last opened first |
| `SnippetMethods.AtMostFour` | third/ctemplate-2.2/src/template_modifiers.cc:181-201 | at most four tags are open, so five bytes hold them |
| `SnippetMethods.UnclosedSnippetTags.constructor` | third/ctemplate-2.2/src/template_modifiers.cc:188-190 | no tag open, all bytes NUL |
| `SnippetMethods.UnclosedSnippetTags.StrChr` | third/ctemplate-2.2/src/template_modifiers.cc:195-195 | where a tag's letter stands, or the NUL |
| `SnippetMethods.UnclosedSnippetTags.MaybeAdd` | third/ctemplate-2.2/src/template_modifiers.cc:194-201 | added at the end unless open already; letters stay distinct and NUL-terminated |
| `SnippetMethods.UnclosedSnippetTags.MaybeRemove` | third/ctemplate-2.2/src/template_modifiers.cc:205-218 | removed with no gap left, if it was open |
| `SnippetMethods.UnclosedSnippetTags.PrintClosingTags` | third/ctemplate-2.2/src/template_modifiers.cc:220-233 | the last opened closed first |
| `SnippetMethods.EmitClosing` | third/ctemplate-2.2/src/template_modifiers.cc:222-231 | one turn of the switch |
| `SnippetMethods.LetThrough` | third/ctemplate-2.2/src/template_modifiers.cc:254-306 | the length of a permitted tag, and the tags open after it |
| `SnippetMethods.LetOpen` | third/ctemplate-2.2/src/template_modifiers.cc:260-277 | an opening tag |
| `SnippetMethods.LetClose` | third/ctemplate-2.2/src/template_modifiers.cc:278-293 | a closing tag |
| `SnippetMethods.EntityAt` | third/ctemplate-2.2/src/template_modifiers.cc:308-327 | what is written for a character that is no tag, which SnippetReading shows to mean that character |
| `SnippetMethods.Modify` | third/ctemplate-2.2/src/template_modifiers.cc:240-332 | runs, entities and tags come to the escaped text, which is balanced and harmless |
| `EscapeModifiers.LongestMatchIsGreatest` | third/ctemplate-2.2/src/template.cc:564-604 | the prefix found is consistent with the author's modifiers and no longer one is |
| `EscapeModifiers.ScanFindsOccurrence` | third/ctemplate-2.2/src/template.cc:583-601 | a successful scan means the automatic modifiers, or safe alternatives, occur in order with only neutral ones in the gaps |
| `EscapeModifiers.UpdateIsComplete` | third/ctemplate-2.2/src/template.cc:775-823 | after the update the whole automatic list is found, exactly unless a safe modifier stood in for it |
| `EscapeModifiers.UpdateIsIdempotent` | third/ctemplate-2.2/src/template.cc:775-823 | a second update changes nothing |
| `EscapeModifiers.UpdateKeepsAuthors` | third/ctemplate-2.2/src/template.cc:775-823 | the author's modifiers stay in front and in order |
| `EscapeModifiers.ScanAppended` | third/ctemplate-2.2/src/template.cc:808-813 | what was appended is found again |
| `EscapeModifiers.FindLongestMatch` | third/ctemplate-2.2/src/template.cc:564-604 | the two backward loops compute the longest match |
| `EscapeModifiers.ScanBackwards` | third/ctemplate-2.2/src/template.cc:583-599 | one backward scan |
| `EscapeModifiers.TemplateToken.UpdateModifier` | third/ctemplate-2.2/src/template.cc:775-823 | the modifiers after the update |
| `Numerals.PrintIsLeast` | src/http/outgoing/Message.cc:83-85 | in lower case and without leading zeros |
| `Numerals.PrintRoundTrip` | src/http/outgoing/Message.cc:83-85 | numerals a stream prints read back as the same number |

## Left out

- Files, modification times and the search path: a load is a parameter that says whether the file changed and whether it parses; `Template::ReloadIfChanged` and `Template::StringToTemplate` are not part of this model.
- Locks: one step of the caches is one critical section of a cache's mutex; the mutexes themselves, and those of the safe arena, are not modelled.
- FrozenCaches.FrozenUntilCleared: takes operations as whole, as `FrozenCaches.RunKeepsFrozenIff` gives the exact condition for interleaved sections.
- Destruction of caches and dictionaries, `Refcount`, `TemplateIsCached` and the other debugging accessors.
- Arenas: page-aligned blocks, statistics other than the bytes allocated, overflow of `size_t`, and block sizes above 2^30, for which the source's shift of an `int` is undefined; addresses and sizes are unbounded numbers.
- Arenas.BaseArena.Realloc: malloc never fails and gives a block aligned to the default alignment, apart from all others.
- Arenas.BaseArena.Shrink: the new size is no greater than the size, as its comment demands of the caller.
- Arenas.BaseArena.GetMemoryWithHandle: handle alignments are at most the default alignment, as an assertion of the arena asks of every alignment requested; `SetHandleAlignment` accepts larger ones.
- Arenas.BaseArena.HandleFor: the same.
- The HTML parser and the effect of the AUTOESCAPE pragma: whether a pragma is legal and which modifiers exist are parameters; the modifiers the auto-escaper computes are an input of `EscapeModifiers`.
- The search for `=}}` reads past the buffer in the source when the buffer ends right after the `=`; here it stops at the end, as does the reader's search for a line end.
- Annotations, logging, dumping, the id-to-name table and hash values; a name stands for its id. Formatted and escaped setters come to `SetValue` with the text they produce.
- Dictionaries' names and the arena that holds their strings; their maps are plain maps here, which `SmallMaps` shows the small map to be, and lists are filed when they are complete.
- SmallMaps: iterators that are kept across changes, `begin` and the order of iteration; raw storage is a slot that is empty or holds a pair.
- HttpWriter.OMessageWriter.Done: writes to the transport always succeed, and an exception is an answer of false.
- The inbound chunked branch of the reader: NEWLINE mode overwrites the size it tests, and it is a `Fault` here. Requests, cookies, and waiting for headers on other threads.
- HttpRoundTrip.RoundTrip: header names are free of white space and colons and values of CR, LF, NUL and leading blanks, as RFC 7230, section 3.2, asks of them and `HttpHead.HeaderReadsBackIff` shows to be needed; the user adds no Content-Length and no Transfer-Encoding; the status name is not empty and does not end in white space, which `HttpHead.StartLineReadsBackIff` shows to be needed.
- Inbound WebSocket frames, masking and control frames; `raw_write` takes all it is given or fails.
- FormContents.EncodeRoundTrip: names are made of safe characters, as they are written unescaped.
- The other escapers (HTML, XML, JSON, CSS, URL validation), which are runs of one character at a time, and the bit table behind the safe characters, given here as the class it stands for.
- In `EscapeModifiers` the table of built-in modifiers is a parameter; the warnings in the log are left out.
- Servers, routing, static files, configuration and the command-line tools.

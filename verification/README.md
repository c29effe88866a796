# Verification of contour's core data structures and protocols

A Dafny model of the hard parts of the contour terminal emulator, with proofs for all inputs, runs
and reachable states. `dafny verify dfyconfig.toml` checks the project.

- **The intrusive LRU hash table** (`IntrusiveLinks`, `StrongLruHashtable`): the recency chain, the
  collision chains and the free chain in one array of entries, rewired in place, refine a bounded
  most-recent-first list (`RecencyTable`). Theorems about single operations and whole runs of it are
  in `RecencyLaws` and `RecencyRuns` and carry over by `TableReplay`. The debug build is modelled,
  with its self-checks: a failed check sets `aborted`, and that happens exactly when the 32-bit
  ordering counter wraps.
- **The caches** (`LruCache`, `StrongLruCache`, `CacheAgreement`): both follow one keyed list
  (`KeyedList`, `KeyedLaws`), and they agree exactly for injective hashers (`StrongHash`).
- **The render protocol** (`RenderState`): interleaved atomic steps of one renderer and any number
  of touching threads.
- **The tabs** (`Tabs`, `TerminalSessionManager`): a state machine and the objects that follow it.
- **The command line** (`CommandLine*`): a grammar of command lines, stated without the parser, that
  the parser accepts exactly and reads as meant (`CommandLineGrammar`, `CommandLineReading`,
  `CommandLineRoundTrip`); what every successful parse guarantees, where validation goes wrong, and
  the parser with its context.
- **base64, escaping, the ring** (`Base64`, `Escape`, `Ring`).

Where a promise fails on some inputs, the exact condition is proved. decode(encode(s)) needs fewer
than 2^32 sextets, because decode casts their count to `unsigned`. Escaped text survives unless it
holds a double quote or, in octal mode, a byte from 0x7E on. A ring rotation is exact unless its
64-bit sum wraps. Two caches agree unless keys collide. A command tree with a nameless root makes
validation look up wrong keys; the trees and arguments for which that shows are given. Where code and
comments differ, the code is followed: `moveTabTo` swaps two tabs, `contains` reorders, and
`try_emplace` counts two misses.

Assumed of callers, as the source demands: a power of two as the slot count and a capacity of at
least 2 and below 2^31, as the debug counters are of type `int`; value constructors that do not
re-enter the table; command names per level, of options and children together, unique and without
dots; a display only while there is a session. I/O, Qt, the clock and the pseudo terminal are dropped;
whether a construction fails, and what `std::stod`, `std::stoul` and `std::stoi` return, are
parameters.

## Model

| member | source | states |
|---|---|---|
| IntrusiveLinks.EveryEntryOnce | src/crispy/StrongLRUHashtable.h:273-305 | With the representation invariant, every entry 1..capacity is on exactly one of the recency chain and the free chain, and it is on the recency chain exactly when it is on some collision chain. |
| IntrusiveLinks.StaleLinks | src/crispy/StrongLRUHashtable.h:464-468 | The recency links kept by an entry that is off the recency chain do not matter to the chain. |
| IntrusiveLinks.HitInv | src/crispy/StrongLRUHashtable.h:756-786 | Relinking one live entry at the head keeps the whole invariant: chains acyclic, prev and next mutual inverses, each live entry in the chain of its own slot, hashes unique. |
| IntrusiveLinks.DeleteInv | src/crispy/StrongLRUHashtable.h:430-473 | Taking an entry off both its chains and pushing it on the free chain keeps the invariant, although free and collision chains share one link field. |
| IntrusiveLinks.InsertInv | src/crispy/StrongLRUHashtable.h:789-813 | Popping a free entry into a slot and to the recency head keeps the invariant. |
| IntrusiveLinks.BlankInv | src/crispy/StrongLRUHashtable.h:292-305 | The links that the constructor writes satisfy the invariant with all entries free. |
| LruHashtable.StrongLruHashtable.constructor | src/crispy/StrongLRUHashtable.h:273-305 | A new table is valid, holds nothing, and has passed no self-check it would fail. |
| LruHashtable.StrongLruHashtable.MeasureLruChain | src/crispy/StrongLRUHashtable.h:847-872 | The self-check walk terminates and measures the chain and whether its ordering numbers fall. |
| LruHashtable.StrongLruHashtable.ValidateChange | src/crispy/StrongLRUHashtable.h:847-872 | The debug self-check fails exactly when the ordering numbers do not fall along the chain or the length is not the expected one. |
| LruHashtable.StrongLruHashtable.UnlinkFromLruChain | src/crispy/StrongLRUHashtable.h:756-765 | Unlinking takes exactly that entry out of the chain and no self-check fails. |
| LruHashtable.StrongLruHashtable.LinkToLruChainHead | src/crispy/StrongLRUHashtable.h:767-786 | Linking puts the entry first; a self-check fails exactly when the 32-bit ordering number runs over. |
| LruHashtable.StrongLruHashtable.FindInChain | src/crispy/StrongLRUHashtable.h:437-444 | The walk finds the entry of that hash together with its predecessor, or shows that the collision chain has none. |
| LruHashtable.StrongLruHashtable.Find | src/crispy/StrongLRUHashtable.h:557-571 | The search of one collision chain is complete: it fails exactly when the hash is nowhere in the table. |
| LruHashtable.StrongLruHashtable.Promote | src/crispy/StrongLRUHashtable.h:563-569 | A hit moves the entry to the front, counts a hit and leaves the collision chains alone. |
| LruHashtable.StrongLruHashtable.RemoveEntry | src/crispy/StrongLRUHashtable.h:430-473 | Removal rewires to the deleted shape, and touches nothing if the hash is absent. |
| LruHashtable.StrongLruHashtable.Remove | src/crispy/StrongLRUHashtable.h:430-473 | remove deletes the hash in place from the recency list, or changes nothing. |
| LruHashtable.StrongLruHashtable.Recycle | src/crispy/StrongLRUHashtable.h:815-845 | On a full table the entry at the tail leaves its chains and becomes the only free one; the loop finds the link to it and no check fails. |
| LruHashtable.StrongLruHashtable.Evict | src/crispy/StrongLRUHashtable.h:788-796 | On a full table exactly the least recently used item is dropped and counted. |
| LruHashtable.StrongLruHashtable.AllocateEntry | src/crispy/StrongLRUHashtable.h:788-813 | The new entry comes first and in its hash's slot, also when the evicted entry sat in that same slot. |
| LruHashtable.StrongLruHashtable.GetOrEmplace | src/crispy/StrongLRUHashtable.h:552-581 | Refines get_or_emplace on a bounded most-recent-first list, with result, counters and the entry index passed to the constructor. |
| LruHashtable.StrongLruHashtable.GetOrTryEmplace | src/crispy/StrongLRUHashtable.h:583-621 | Refines it on the list; after a failed construction the chains are as before, minus the least recently used entry if the table was full. |
| LruHashtable.StrongLruHashtable.FindEntry | src/crispy/StrongLRUHashtable.h:716-754 | Without force: a hit moves to front, a miss only counts. |
| LruHashtable.StrongLruHashtable.FindEntryOrCreate | src/crispy/StrongLRUHashtable.h:716-754 | With force: a missing hash is created with the default value at the front. |
| LruHashtable.StrongLruHashtable.Touch | src/crispy/StrongLRUHashtable.h:475-479 | touch is a lookup. |
| LruHashtable.StrongLruHashtable.Contains | src/crispy/StrongLRUHashtable.h:481-485 | contains answers membership and reorders and counts like a lookup, although it is const. |
| LruHashtable.StrongLruHashtable.TryGet | src/crispy/StrongLRUHashtable.h:487-494 | try_get returns the resident value or nothing, and moves to the front. |
| LruHashtable.StrongLruHashtable.Peek | src/crispy/StrongLRUHashtable.h:511-525 | peek returns what the list holds and changes nothing; None stands for out_of_range. |
| LruHashtable.StrongLruHashtable.Index | src/crispy/StrongLRUHashtable.h:533-538 | operator[] creates a default on a miss. |
| LruHashtable.StrongLruHashtable.TryEmplace | src/crispy/StrongLRUHashtable.h:540-550 | try_emplace creates only on a miss, and counts such a miss twice. |
| LruHashtable.StrongLruHashtable.Emplace | src/crispy/StrongLRUHashtable.h:635-640 | emplace overwrites or creates, and returns the stored value. |
| LruHashtable.StrongLruHashtable.HashesInOrder | src/crispy/StrongLRUHashtable.h:651-665 | hashes() lists the resident hashes most recent first, and its length check holds. |
| LruHashtable.StrongLruHashtable.FetchAndClearStats | src/crispy/StrongLRUHashtable.h:395-401 | Returns the counters and zeroes only them. |
| LruHashtable.StrongLruHashtable.Clear | src/crispy/StrongLRUHashtable.h:403-427 | clear leaves the state of a new table but for the counters. |
| LruHashtable.StrongLruHashtable.ContentsWellFormed | src/crispy/StrongLRUHashtable.h:387-393 | The list that a valid table stands for has distinct hashes, and its items and the free entries together are as many as the capacity. |
| LruHashtable.OrderedPrefixed | src/crispy/StrongLRUHashtable.h:781-785 | Drawing the next ordering number keeps the numbers falling if and only if the counter does not wrap. |
| LruHashtable.InsertThenDelete | src/crispy/StrongLRUHashtable.h:613-617 | Inserting an entry and deleting it again restores the shape. |
| RecencyTable.CreateThenOverwrite | src/crispy/StrongLRUHashtable.h:544-549 | Creating a default and then overwriting it is inserting the value. |
| RecencyTable.MissedNextIndex | src/crispy/StrongLRUHashtable.h:789-799 | Counting a miss does not change which entry is allocated next. |
| TableReplay.Perform | src/crispy/StrongLRUHashtable.h:395-665 | Each of thirteen operations does to the contents of any valid table, and answers, what the list operation does. |
| TableReplay.Replay | src/crispy/StrongLRUHashtable.h:395-665 | So does every run of them: state and answers are those of the recency list. |
| TableReplay.SlotsDoNotMatter | src/crispy/StrongLRUHashtable.h:387-393 | Two new tables that differ in their slot counts give the same answers and the same hashes() in every run; after gets only, hashes() is the first `capacity` distinct hashes of the run, read backwards. |
| RecencyRuns.RecencyLaw | src/crispy/StrongLRUHashtable.h:552-581 | After any run of get_or_emplace on a fresh table, hashes() is the first `capacity` distinct hashes of the history read backwards. |
| RecencyRuns.SmallerIsPrefix | src/crispy/StrongLRUHashtable.h:552-581 | For capacities C <= C' and the same run, the smaller table holds exactly the first C of the larger one's hashes. |
| RecencyRuns.HitsGrowWithCapacity | src/crispy/StrongLRUHashtable.h:552-581 | The larger table has at least as many hits in the same run. |
| RecencyRuns.CountedHitsGrow | src/crispy/StrongLRUHashtable.h:565 | So says its hits counter, in every run of fewer than 2^32 gets. |
| RecencyRuns.Conservation | src/crispy/StrongLRUHashtable.h:430-621 | Over gets, tries and removes: misses = size + recycles + removals + failed constructions and hits + misses = gets; the counters show these modulo 2^32. |
| RecencyRuns.OrderingCountsLinks | src/crispy/StrongLRUHashtable.h:781-783 | In every run the ordering counter is the number of links since the last clear, modulo 2^32. |
| RecencyRuns.ChecksFailWhenOrderingWraps | src/crispy/StrongLRUHashtable.h:847-872 | In every run of all operations, a self-check fails if and only if 2^32 entries were linked without a clear. |
| RecencyRuns.ChecksDoFail | src/crispy/StrongLRUHashtable.h:847-872 | 2^32 gets of one hash do make a self-check fail. |
| RecencyLaws.OrderLaw | src/crispy/StrongLRUHashtable.h:403-640 | After every operation hashes() is the old list with the asked hash moved or put first, cut to the capacity, or without the removed hash. |
| RecencyLaws.ItemLaw | src/crispy/StrongLRUHashtable.h:403-640 | After every operation each hash has its old value and entry, but for the one created, overwritten, removed or pushed out. |
| RecencyLaws.RemovedOrder | src/crispy/StrongLRUHashtable.h:430-473 | remove takes exactly that hash out of hashes() and keeps the order of the others. |
| RecencyLaws.RemovedLookup | src/crispy/StrongLRUHashtable.h:430-473 | After remove that hash is not found, and every other is found as before. |
| RecencyLaws.RemovedIsNext | src/crispy/StrongLRUHashtable.h:463-468 | The entry of a removed hash is the next to be handed out. |
| RecencyLaws.NextIndexIs | src/crispy/StrongLRUHashtable.h:789-799 | The next entry is the first free one, or that of the least recently used hash in a full table. |
| RecencyLaws.EntryLaw | src/crispy/StrongLRUHashtable.h:292-305 | In every run of all operations the used and the free entries are exactly 1 to capacity. |
| RecencyLaws.CounterLaw | src/crispy/StrongLRUHashtable.h:540-754 | Each operation counts its lookups as hits or misses and each eviction as a recycle; try_emplace of an absent hash misses twice. |
| RecencyLaws.ValueLaw | src/crispy/StrongLRUHashtable.h:487-621 | A value that an operation returns is the one found afterwards under that hash. |
| RecencyLaws.AnswerLaw | src/crispy/StrongLRUHashtable.h:395-665 | try_emplace and contains tell whether the hash was there; hashes() and the statistics tell the state before. |
| RecencyLaws.DistanceLaw | src/crispy/StrongLRUHashtable.h:430-581 | In any run of gets and removes a hash is resident if and only if it was asked for after its last removal and the other hashes asked for since, and not removed, are fewer than the capacity. |
| ListCache.LruCache.constructor | src/crispy/LRUCache.h:30 | A new cache is empty. |
| ListCache.LruCache.Clear | src/crispy/LRUCache.h:35-39 | List and map are emptied together. |
| ListCache.LruCache.MoveItemToFront | src/crispy/LRUCache.h:173-178 | A new node at the front takes over the item; the old node is gone. |
| ListCache.LruCache.EmplaceItemToFront | src/crispy/LRUCache.h:180-185 | The item comes first and the map knows its node. |
| ListCache.LruCache.EvictOneAndPushFront | src/crispy/LRUCache.h:157-171 | Exactly the last item is replaced by the new one at the front, and map and list stay in step. |
| ListCache.LruCache.TryGet | src/crispy/LRUCache.h:47-58 | Returns the value of the key and moves it to front; a miss changes nothing. |
| ListCache.LruCache.Touch | src/crispy/LRUCache.h:41 | touch is a lookup. |
| ListCache.LruCache.Contains | src/crispy/LRUCache.h:43 | contains answers membership and changes nothing. |
| ListCache.LruCache.Index | src/crispy/LRUCache.h:76-87 | operator[] creates a default on a miss, evicting on a full cache. |
| ListCache.LruCache.TryEmplace | src/crispy/LRUCache.h:89-104 | try_emplace creates only on a miss. |
| ListCache.LruCache.GetOrEmplace | src/crispy/LRUCache.h:106-122 | get_or_emplace returns the found or the made value. |
| ListCache.LruCache.KeysInOrder | src/crispy/LRUCache.h:133-141 | keys() lists the keys most recent first. |
| ListCache.LruCache.PerformAll | src/crispy/LRUCache.h:35-112 | Every run of try_get, touch, operator[], get_or_emplace, try_emplace and clear follows the keyed list. |
| KeyedLaws.KeysLaw | src/crispy/LRUCache.h:35-112 | A creating call puts its key first and cuts keys() to the capacity; a lookup puts a key that is there first. |
| KeyedLaws.FoundLaw | src/crispy/LRUCache.h:47-112 | Under every key that is there afterwards is what was there before, or what was made for the new one. |
| KeyedLaws.ReplyLaw | src/crispy/LRUCache.h:47-112 | A value returned is the one found afterwards; try_emplace tells whether the key was new. |
| HashedCache.StrongLruCache.constructor | src/crispy/StrongLRUCache.h:121-127 | A new cache is empty. |
| HashedCache.StrongLruCache.TryGet | src/crispy/StrongLRUCache.h:171-177 | Follows the table operation for the key's hash. |
| HashedCache.StrongLruCache.Touch | src/crispy/StrongLRUCache.h:159-163 | Follows the table operation for the key's hash. |
| HashedCache.StrongLruCache.Index | src/crispy/StrongLRUCache.h:193-197 | Creates the key with a default on a miss. |
| HashedCache.StrongLruCache.GetOrEmplace | src/crispy/StrongLRUCache.h:207-214 | Creates the key on a miss, with the value made for the new entry's number. |
| HashedCache.StrongLruCache.TryEmplace | src/crispy/StrongLRUCache.h:199-205 | Creates only on a miss, with the value made for the new entry's number. |
| HashedCache.StrongLruCache.Contains | src/crispy/StrongLRUCache.h:165-169 | Answers membership of the hash, and reorders. |
| HashedCache.StrongLruCache.Emplace | src/crispy/StrongLRUCache.h:216-220 | Overwrites or creates, and returns the stored value. |
| HashedCache.StrongLruCache.Remove | src/crispy/StrongLRUCache.h:153-157 | Removes the key's hash. |
| HashedCache.StrongLruCache.Clear | src/crispy/StrongLRUCache.h:147-151 | Empties the cache. |
| HashedCache.StrongLruCache.KeysInOrder | src/crispy/StrongLRUCache.h:222-229 | keys(), by hashes() and peek, lists the stored keys most recent first; no peek throws. |
| HashedCache.StrongLruCache.PerformAll | src/crispy/StrongLRUCache.h:147-229 | Every run of try_get, touch, operator[], get_or_emplace, try_emplace and clear follows the table operations. |
| HashedCache.CacheStepKeyed | src/crispy/StrongLRUCache.h:193-214 | After each of these operations, every stored key hashes to the hash it is stored under. |
| HashedCache.EmplacedKeyed | src/crispy/StrongLRUCache.h:216-220 | So it does after emplace. |
| CacheAgreement.RunsAgree | src/crispy/StrongLRUCache.h:147-229 | With an injective hasher, strong_lru_cache and lru_cache give the same replies and the same key order in every run. |
| CacheAgreement.CollisionDisagrees | src/crispy/StrongLRUCache.h:171-177 | If two keys collide, two operations suffice to tell the caches apart. |
| CacheAgreement.AgreementIsInjectivity | src/crispy/StrongLRUCache.h:147-229 | The caches agree on all runs if and only if the hasher is injective. |
| CacheAgreement.SideBySide | src/crispy/LRUCache.h:35-141 | The two implementations, run side by side, return equal replies and equal keys(). |
| StrongHashing.Compute | src/crispy/StrongHash.h:103-146 | The string loop is the fold of the characters into a seed that depends on the length only. |
| StrongHashing.TimesPrimeUndone | src/crispy/FNV.h:31-36 | Multiplying by the FNV prime modulo 2^32 is undone by multiplying by its inverse. |
| StrongHashing.FnvStepBijective | src/crispy/FNV.h:31-36 | The FNV step is a bijection in the state and in the character, with its inverse. |
| StrongHashing.AppendBijective | src/crispy/StrongHash.h:103-146 | Appending a given character is a bijection of the four-word hashes, with its inverse. |
| StrongHashing.FnvStepInjective | src/crispy/FNV.h:31-36 | Of two steps with equal results, the states agree if and only if the characters do. |
| StrongHashing.AppendInjective | src/crispy/StrongHash.h:103-146 | The same for appending to four-word hashes. |
| StrongHashing.FoldInjective | src/crispy/StrongHash.h:103-146 | Hashing on from two states ends equal if and only if the states were equal. |
| StrongHashing.OneCharacterApart | src/crispy/StrongHash.h:103-146 | Changing one character of a string of any length changes its hash, and only then. |
| StrongHashing.IntegerHashersInjective | src/crispy/StrongHash.h:241-279 | The integer hashers are injective. |
| StrongHashing.FnvStepIs | src/crispy/FNV.h:31-36 | A step takes the exclusive or first, and then multiplies by the 32-bit FNV prime. |
| StrongHashing.HashIsFnv | src/crispy/StrongHash.h:103-146 | Of the four words of a string's hash only the last is ever set: to FNV-1a of its characters, starting from their number. |
| StrongHashing.HashersAgree | src/crispy/StrongHash.h:241-279 | The integer hashers agree where their types do, and a 64-bit value can be read off its hash. |
| RenderStates.StepKeepsInv | src/contour/helper.h:234-285 | Every load, compare-exchange and exchange of any thread keeps the protocol invariant. |
| RenderStates.RunKeepsInv | src/contour/helper.h:234-285 | The invariant holds after every interleaving, for any number of touching threads. |
| RenderStates.NoUpdateLost | src/contour/helper.h:239-284 | In every reachable state: touched since the last clear if and only if dirty; and if no touch() has returned true, then until the next fetchAndClear() the state stays dirty and finish() cannot return true. |
| RenderStates.SomebodyWasTold | src/contour/helper.h:241-284 | A dirty state whose paint has finished means a touch() returned true or a finish() returned false. |
| RenderStates.AtMostOneTrueTouch | src/contour/helper.h:241-260 | Between two clears at most one touch() returns true, and one did if and only if the state is DirtyIdle. |
| RenderStates.FailedCasMeansInterference | src/contour/helper.h:243-283 | A compare-exchange fails only if another thread changed the state after this thread's load. |
| RenderStates.StaleMeansChanged | src/contour/helper.h:243-283 | A thread that holds an outdated state loaded it before a change by another thread. |
| RenderStates.QuietWhilePainting | src/contour/helper.h:234-285 | In every reachable state: from a fetchAndClear() until a finish() returns, the state is a painting one and no touch() has returned true; a painting state after that means that a finish() returned false. |
| RenderStates.FinishTellsTheTruth | src/contour/helper.h:264-285 | In every reachable state: finish() returns false only for a dirty state, which it leaves alone; when it returns true the painting is over, the pressure is off, and an update that came in was reported by a touch(). |
| RenderStates.TouchTellsTheTruth | src/contour/helper.h:239-285 | touch() returns true exactly in the step from CleanIdle to DirtyIdle; touch() and finish() try again if and only if the state changed since they loaded it; fetchAndClear() leaves CleanPainting. |
| Tabs.StepSound | src/contour/TerminalSessionManager.cpp:45-285 | Every tab operation keeps: no duplicates, active a member, previous a different member with two or more tabs and none with one. |
| Tabs.RunSound | src/contour/TerminalSessionManager.cpp:45-285 | So does every run from the empty manager until the last session is removed. |
| Tabs.RemovedMembers | src/contour/TerminalSessionManager.cpp:256-269 | A removal takes out that session and nothing else. |
| Tabs.RemovedSound | src/contour/TerminalSessionManager.cpp:256-285 | A removal keeps the invariant if and only if it is not the removal of the last session. |
| Tabs.MovesOnlyPermute | src/contour/TerminalSessionManager.cpp:211-254 | Moves permute the tabs and change neither active nor previous; switches leave the tabs alone. |
| Tabs.PreviousTwice | src/contour/TerminalSessionManager.cpp:149-156 | Switching to the previous tab twice is no change. |
| Tabs.LeftUndoesRight | src/contour/TerminalSessionManager.cpp:158-189 | Left after right returns to the same tab, also across the ends. |
| Tabs.AroundTheTabs | src/contour/TerminalSessionManager.cpp:175-189 | Going right n times is adding n modulo the number of tabs. |
| Tabs.MoveRightUndoesLeft | src/contour/TerminalSessionManager.cpp:226-254 | Moving a tab left and then right restores the bar. |
| Tabs.CloseUndoesCreate | src/contour/TerminalSessionManager.cpp:144-147 | A new tab opens right of the active one and becomes active; closing it restores tabs and active. |
| Tabs.GoesToPosition | src/contour/TerminalSessionManager.cpp:191-200 | switchToTab(p) activates the tab at index p - 1 and remembers the one before; any other p changes nothing. |
| Tabs.SetsToIndex | src/contour/TerminalSessionManager.cpp:94-103 | setSession activates the tab at that index, or opens a new one at the end. |
| Tabs.PreviousExchanged | src/contour/TerminalSessionManager.cpp:149-156 | switchToPreviousTab exchanges active and previous. |
| Tabs.MovesToPosition | src/contour/TerminalSessionManager.cpp:211-224 | moveTabTo(p) leaves the active tab at index p - 1, the tab from there where the active one was, and all others in place. |
| Tabs.MovesByOne | src/contour/TerminalSessionManager.cpp:226-254 | moveTabToLeft and moveTabToRight exchange the tab with its neighbour, and nothing else. |
| Tabs.RemovalLaw | src/contour/TerminalSessionManager.cpp:256-285 | Removing one of several tabs keeps the order of the others; if the active one goes, the previous one becomes active; the new previous one is the right neighbour of the active one, or else its left one. |
| Tabs.AbsentRemoval | src/contour/TerminalSessionManager.cpp:263-268 | Removing a session that is not there changes nothing. |
| Tabs.OpensInBackground | src/contour/TerminalSessionManager.cpp:45-92 | A tab opened in the background stands right of the active one, which stays active and becomes the previous one. |
| Tabs.FirstTab | src/contour/TerminalSessionManager.cpp:144-147 | The first tab is active and has no previous one. |
| TerminalSessions.TerminalSessionManager.constructor | src/contour/TerminalSessionManager.cpp:27-29 | A new manager is valid and empty. |
| TerminalSessions.TerminalSessionManager.SetDisplay | src/contour/TerminalSessionManager.h:54 | Setting the display keeps the invariant if and only if there is a session or the display is null. |
| TerminalSessions.TerminalSessionManager.GetSessionIndexOf | src/contour/TerminalSessionManager.h:60-65 | The first position of the session, or none. |
| TerminalSessions.TerminalSessionManager.UpdateStatusLine | src/contour/TerminalSessionManager.h:72-81 | The active terminal is told the real number of tabs and its position. |
| TerminalSessions.TerminalSessionManager.CreateSessionInBackground | src/contour/TerminalSessionManager.cpp:45-92 | The new session stands right of the active one, and previous becomes the active one. |
| TerminalSessions.TerminalSessionManager.ActivateSession | src/contour/TerminalSessionManager.cpp:105-142 | Active and previous change as said and the status line is updated; null, and the session that is active already, change nothing. |
| TerminalSessions.TerminalSessionManager.CreateSession | src/contour/TerminalSessionManager.cpp:144-147 | Opens and activates a new session and keeps the invariant. |
| TerminalSessions.TerminalSessionManager.SetSession | src/contour/TerminalSessionManager.cpp:94-103 | Activates that tab, opens a new one at the end position, and reports a failed requirement beyond it. |
| TerminalSessions.TerminalSessionManager.SwitchToPreviousTab | src/contour/TerminalSessionManager.cpp:149-156 | Swaps active and previous, and keeps the invariant. |
| TerminalSessions.TerminalSessionManager.SwitchToTabLeft | src/contour/TerminalSessionManager.cpp:158-173 | Goes left with wrap-around, and keeps the invariant. |
| TerminalSessions.TerminalSessionManager.SwitchToTabRight | src/contour/TerminalSessionManager.cpp:175-189 | Goes right with wrap-around, and keeps the invariant. |
| TerminalSessions.TerminalSessionManager.SwitchToTab | src/contour/TerminalSessionManager.cpp:191-200 | Goes to the position if there is one, and keeps the invariant. |
| TerminalSessions.TerminalSessionManager.MoveTabTo | src/contour/TerminalSessionManager.cpp:211-224 | Swaps with the tab at that position, and the status line is true again. |
| TerminalSessions.TerminalSessionManager.MoveTabToLeft | src/contour/TerminalSessionManager.cpp:226-239 | Swaps with the left neighbour, if any, and the status line is true again; null is ignored. |
| TerminalSessions.TerminalSessionManager.MoveTabToRight | src/contour/TerminalSessionManager.cpp:241-254 | Swaps with the right neighbour, if any, and the status line is true again; null is ignored. |
| TerminalSessions.TerminalSessionManager.RemoveSession | src/contour/TerminalSessionManager.cpp:256-285 | Removes the session and picks the new previous one; the invariant holds afterwards if and only if it was not the last session. |
| TerminalSessions.TerminalSessionManager.CloseTab | src/contour/TerminalSessionManager.cpp:202-209 | Removes the active session; the invariant holds afterwards if and only if it was not the last one. |
| CommandLineParser.ParseContext.NamePrefix | src/crispy/CLI.cpp:98-110 | The prefix is the names on the stack joined by dots. |
| CommandLineParser.ParseContext.ConsumeToken | src/crispy/CLI.cpp:159-167 | Returns the current token and advances, or fails at the end. |
| CommandLineParser.ParseContext.SearchOption | src/crispy/CLI.cpp:145-157 | Finds the first option of that long or short name. |
| CommandLineParser.ParseContext.ParseValue | src/crispy/CLI.cpp:224-246 | A flag takes an optional truth value, any other option the next token. |
| CommandLineParser.ParseContext.TryParseOption | src/crispy/CLI.cpp:273-328 | Recognises NAME, -NAME, --NAME and --NAME=VALUE as specified, with the errors. |
| CommandLineParser.ParseContext.ParseOptionList | src/crispy/CLI.cpp:336-351 | The loop leaves the flags and the position that the log of options says. |
| CommandLineParser.ParseContext.TryLookupCommand | src/crispy/CLI.cpp:353-365 | Finds the first child named by the token. |
| CommandLineParser.ParseContext.TryImplicitCommand | src/crispy/CLI.cpp:367-377 | Finds the first implicit child, and none only if there is none. |
| CommandLineParser.ParseContext.PrefillDefaults | src/crispy/CLI.cpp:379-401 | Fills in the defaults of the whole tree and pops the stack. |
| CommandLineParser.ParseContext.GoVerbatim | src/crispy/CLI.cpp:426-432 | Moves all remaining tokens, without a leading "--". |
| CommandLineParser.ParseContext.ParseCommand | src/crispy/CLI.cpp:403-440 | Flags, position, verbatim tokens, result and errors are those of the specification, and the stack is restored. |
| CommandLineParser.ParseContext.Validate | src/crispy/CLI.cpp:453-472 | Fails as specified for the first missing option. |
| CommandLineParser.Parse | src/crispy/CLI.cpp:487-511 | The whole parser, which terminates on every tree and argument list, computes the specified result. |
| CommandLineKeys.JoinInjective | src/crispy/CLI.cpp:98-110 | Dotted keys of dot-free names determine the path. |
| CommandLineKeys.StoreRemembers | src/crispy/CLI.cpp:330-334 | The store holds under a path's key the last value written for that path. |
| CommandLineLogs.CommandOutcomeGood | src/crispy/CLI.cpp:403-440 | What a parse writes are flags of commands on one path and values of the right type for their options. |
| CommandLineLogs.PrefillGood | src/crispy/CLI.cpp:379-401 | The defaults deselect every subcommand and cover every optional option, and nothing else. |
| CommandLineLogs.CommandFlag | src/crispy/CLI.cpp:403-440 | A command's last write is true if and only if it lies on the chosen path. |
| CommandLineLogs.OptionFlag | src/crispy/CLI.cpp:336-351 | An optional option of a selected command has a value of its type, a required one has one or none; any other has its default, or none if required. |
| CommandLineValidation.NamedVerdict | src/crispy/CLI.cpp:453-472 | With a named root, validate passes if and only if every required option of every selected command is there, and otherwise names the first missing one, from the root down. |
| CommandLineValidation.NamelessVerdict | src/crispy/CLI.cpp:453-472 | With a nameless root and no nameless child selected, what validate says, case by case: it passes only for a child without required options and without children. |
| CommandLineTheorems.ParseDescribes | src/crispy/CLI.cpp:487-511 | Success means: all tokens consumed; exactly the commands on one root-to-node path true; every option of a selected command present with its declared type, except required ones at or below a nameless child of a nameless root; every other option at its default, or absent if required; no other key. |
| CommandLineTheorems.BadFlagExactly | src/crispy/CLI.cpp:466-471 | With a nameless root and named children, validate throws for a missing flag if and only if the tokens are consumed, the root has its required options, and the selected child has children and no required option. |
| CommandLineTheorems.NoBadFlag | src/crispy/CLI.cpp:466-471 | No argument list makes validate throw for a flag if the root is named, or each of its children has no children or else a name and a required option. |
| CommandLineGrammar.SpellsExactly | src/crispy/CLI.cpp:273-328 | A token is taken for an option of a name if and only if it spells it: NAME, -NAME, --NAME or --NAME=VALUE. |
| CommandLineGrammar.TextMeans | src/crispy/CLI.cpp:170-223 | A text is read as a value if and only if it denotes it: true, yes, false, no; a number, modulo 2^32 for unsigned ones; or the text itself. |
| CommandLineGrammar.FoundNone | src/crispy/CLI.cpp:145-157 | No option is found if and only if the token spells none. |
| CommandLineGrammar.CallsNoneExactly | src/crispy/CLI.cpp:353-365 | No command is found if and only if the token calls none, with or without dashes. |
| CommandLineReading.InvocationRead | src/crispy/CLI.cpp:403-440 | The tokens written for an invocation are read as exactly its settings, its command, its verbatim tokens and what is left over; options in any form, subcommands by name, behind dashes, or, for the first implicit one, not named at all. |
| CommandLineReading.InvocationWritten | src/crispy/CLI.cpp:403-440 | Whatever the parser accepts is the writing of an invocation. |
| CommandLineReading.AcceptsExactly | src/crispy/CLI.cpp:403-440 | For every command and all tokens the parser yields an outcome if and only if some legible invocation is written so and means that outcome. |
| CommandLineRoundTrip.RoundTrip | src/crispy/CLI.cpp:487-511 | Parsing what was written for an invocation gives the store that says what it means: flags on its path, the last value given to each option, defaults for the rest, its verbatim tokens and no other key. A complete one succeeds if and only if the root is named, or stopped at, or its child asks validate for nothing; an incomplete one fails, under a named root, on the first missing option. |
| CommandLineRoundTrip.HoldsOnce | src/crispy/CLI.cpp:487-511 | There is only one store that says what an invocation means. |
| CommandLineRoundTrip.RefusesExactly | src/crispy/CLI.cpp:487-511 | For every tree and argument list: a parser error means that the list says no invocation at all, and nullopt that it says one and leaves tokens over. |
| CommandLineRoundTrip.ParsesExactly | src/crispy/CLI.cpp:487-511 | For every proper tree with a named root: parse returns a store if and only if the argument list says a complete invocation, leaves nothing over, and the store says what that means. |
| CommandLinePlain.LegibleIf | src/crispy/CLI.cpp:273-440 | In a tree of plain names every fitting invocation can be written. |
| CommandLinePlain.NothingSaid | src/crispy/CLI.cpp:367-377 | Without arguments the first implicit commands are selected, level by level. |
| CommandLineNameless.StumblesOver | src/crispy/CLI.cpp:466-471 | Under a nameless root whose required options are set, naming a child with children and no required option makes validate throw for a flag. |
| CommandLineNameless.SturdyExactly | src/crispy/CLI.cpp:466-471 | For plain names, the tree condition of NoBadFlag is exact. |
| CommandLineNameless.StumblingExample | src/crispy/CLI.cpp:466-471 | An example of such a tree, and the arguments. |
| CommandLineNameless.SlipsExactly | src/crispy/CLI.cpp:455 | For a nameless root that requires nothing, with a nameless leaf: some argument list lets a missing option pass if and only if the leaf requires something, and nothing without a namesake at the root. |
| CommandLineNameless.SlipsIfShadowed | src/crispy/CLI.cpp:455 | The token "--" is then enough. |
| CommandLineNameless.NothingSlips | src/crispy/CLI.cpp:453-472 | If the root or all its children are named, no missing option passes. |
| Base64.IndexMapInverse | src/crispy/base64.h:14-38 | The decode table inverts the alphabet, and has a sextet exactly for the characters of the alphabet. |
| Base64.EncoderState.Encode | src/crispy/base64.h:56-69 | Byte by byte, the state holds the bytes not yet output, and every third byte outputs the group of section 4 of RFC 4648. |
| Base64.EncoderState.Finish | src/crispy/base64.h:71-99 | The pending one or two bytes are output with padding. |
| Base64.Encode | src/crispy/base64.h:113-132 | The loop computes the 6-bit regrouping of section 4 of RFC 4648. |
| Base64.EncodingLength | src/crispy/base64.h:113-143 | The output length is 4 * ceil(n / 3). |
| Base64.AlphabetIsTable | src/crispy/base64.h:14-38 | The alphabet is A-Z, a-z, 0-9, + and /, in the order of table 1 of RFC 4648. |
| Base64.RegroupedBits | src/crispy/base64.h:56-69 | The four sextets of a group are the 24 bits of its three bytes. |
| Base64.EncodingAt | src/crispy/base64.h:113-143 | Character i of the output is the alphabet's letter for the i-th six bits of the input, or = behind the last of them. |
| Base64.EncodingEnds | src/crispy/base64.h:71-99 | There are (4n + 2) / 3 letters and then (3 - n mod 3) mod 3 times =. |
| Base64.DecodingStops | src/crispy/base64.h:173-187 | The first character outside the alphabet ends the input of decode. |
| Base64.DecodeLengthTight | src/crispy/base64.h:145-160 | decodeLength is the least multiple of three that three bytes for every four characters fit in. |
| Base64.ComputeDecodeLength | src/crispy/base64.h:145-160 | decodeLength counts all characters, pad or not. |
| Base64.DecodingFits | src/crispy/base64.h:145-160 | On every input decode writes no more than decodeLength allotted. |
| Base64.DecodeInto | src/crispy/base64.h:173-221 | On every input decode writes exactly the bytes it reports, and no others. |
| Base64.Decode | src/crispy/base64.h:235-241 | The resized output is exactly the decoded bytes. |
| Base64.RoundTrip | src/crispy/base64.h:113-241 | decode(encode(s)) == s if and only if the number of sextets of s is below 2^32. |
| Base64.LostAltogether | src/crispy/base64.h:187-188 | Nothing at all is decoded exactly of the inputs whose length is a multiple of 3 * 2^30. |
| Escaping.Escape | src/crispy/escape.h:42-54 | The loop escapes byte by byte. |
| Escaping.Unescape | src/crispy/escape.h:83-187 | The loop is the state machine on every input. |
| Escaping.RoundTrip | src/crispy/escape.h:22-187 | unescape(escape(s)) == s if and only if s has no double quote and, in octal mode, no byte from 0x7E on; otherwise the result is longer. |
| Escaping.QuoteIsLost | src/crispy/escape.h:157-162 | A double quote does not survive. |
| Escaping.EscapeShape | src/crispy/escape.h:22-40 | An escaped byte is itself, a backslash and one character for six of them, or a backslash and three for all that are not printable. |
| Escaping.NumericEscapes | src/crispy/escape.h:22-40 | Numbers are two hexadecimal or three octal digits, in lower case. |
| Escaping.LetterTable | src/crispy/escape.h:83-162 | The letters a, b, t, n, v, f, r and e stand for the codes 7 to 13 and 27; an unknown letter keeps its backslash. |
| Escaping.HexDigits | src/crispy/escape.h:83-187 | Capital hexadecimal digits are read too. |
| Escaping.NumberRead | src/crispy/escape.h:83-187 | Any two characters after \x or \0 give one byte, by strtoul on the buffer, which a zero byte ends. |
| Escaping.TwoCharacters | src/crispy/escape.h:83-187 | What strtoul makes of the buffer: blanks and a plus sign are passed over, a minus sign negates, and the first character that is no digit ends the number. |
| Rings.SlotExact | src/crispy/ring.h:46-62 | Indexing wraps to the right slot if and only if the 64-bit sum does not wrap, or the size divides 2^64. |
| Rings.TooFarRight | src/crispy/ring.h:77 | A ring of three rotated right by four goes to the wrong slot. |
| Rings.OriginMoved | src/crispy/ring.h:73-78 | Moving the origin shifts the logical sequence cyclically. |
| Rings.RotatedTwice | src/crispy/ring.h:73-78 | Two shifts are one shift by the sum. |
| Rings.RotationsAddUp | src/crispy/ring.h:73-78 | After any in-range rotations the logical sequence is the original one, shifted by their sum. |
| Rings.Ring.Index | src/crispy/ring.h:46-62 | Indexing reads the logical sequence. |
| Rings.Ring.RotateLeft | src/crispy/ring.h:76 | Rotates the logical sequence; exact if and only if in range. |
| Rings.Ring.RotateRight | src/crispy/ring.h:77 | Rotates the logical sequence; exact if and only if in range. |
| Rings.Ring.Rotate | src/crispy/ring.h:74 | Rotates the logical sequence; exact if and only if in range. |
| Rings.Ring.Snapshot | src/crispy/ring.h:269-270 | Reading through the iterators gives the logical sequence. |
| Rings.Ring.Rezero | src/crispy/ring.h:394-399 | The whole logical sequence is kept although the rotation goes through rotated iterators. |
| Rings.Ring.Resize | src/crispy/ring.h:158-162 | The common prefix of the logical sequence is kept and new elements are defaults; beyond the vector's maximum all is kept. |

## Left out

- CommandLineTheorems.ParseDescribes: does not promise the required options at and below a nameless child of a nameless root, where the law fails (CommandLineNameless.SlipsExactly).
- CommandLineTheorems.BadFlagExactly: for named children; below a nameless child validate reads the root's own flags and options.
- CommandLineNameless.SlipsExactly: for a nameless leaf, and a root that requires nothing itself.
- CommandLineRoundTrip.RoundTrip: does not say whether validate passes below a nameless child of a nameless root; see CommandLineNameless.
- CommandLineRoundTrip.ParsesExactly: for a named root; under a nameless one validate looks up wrong keys.
- ListCache.LruCache.constructor: a capacity of at least 1, because with capacity 0 the code evicts from an empty list.
- ListCache.LruCache.PerformAll: without contains, which does not reorder here but does in strong_lru_cache.
- HashedCache.StrongLruCache.constructor: takes the slot count after rounding; `nextPowerOfTwo` is not part of this model.
- HashedCache.StrongLruCache.PerformAll: without contains, remove and emplace, which lru_cache lacks or does differently.
- HashedCache.CacheStepKeyed: the same operations; remove takes keys away only, and emplace is EmplacedKeyed.
- Memory layout of the table, its allocator, `valueAtEntryIndex`, `at`, `inspect`, and `emplace` with a constructor.
- The release build of the table, which has no ordering numbers and no self-checks but the same links.
- `lru_cache::erase` and `lru_cache::at`.
- Weak memory: the render state's accesses are sequentially consistent, as in the source.
- Sizes and pixels of the display, working directories, and what quits when the last tab closes.
- The two-argument base64 `finish(state, s)`, which passes the decode table as the alphabet.
- `rezero(iterator)`, `push_back` and `pop_front` on a rotated ring, which act on the raw storage.
- SIMD and AES variants of the strong hash and hashers built on `std::hash`.
- Help and usage texts of the command line, deprecation notes, and the conversion from argc and argv.
- Configuration, actions, documentation, logging, audio, fonts and PTY code.
- TrieMap, sort, flags, point, size, times, result and string interpolation.

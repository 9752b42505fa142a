# Verified model of the database daemon

This project models the in-memory structures, text codecs and step protocols of the daemon under `src/` in Dafny
and proves what they promise. `dafny verify dfyconfig.toml` checks all of it.

Code that changes things in place is modelled that way: classes and methods on the program's own arrays, links and
counters, each proved against a specification on values, about which the main results are then lemmas. Concurrent
code is a state machine whose steps are the critical sections.

| files | model | main results |
|---|---|---|
| `BPlusTree.dfy`; `BPlusTreeNodes.dfy`, `BPlusTreeChain.dfy`, `BPlusTreeHeap.dfy` | `src/bptree.c` as a value; its nodes, leaf chain and tree object | the tree of nodes, with its chain of leaves, refines a finite map and a sorted range query; occupancy and height |
| `ThreadPool.dfy`, `ThreadPoolProofs.dfy`, `PoolMonitor.dfy`; `ThreadPoolClass.dfy` | `src/threadpool.c` as a state machine; its fields | work conservation, first in first out exactly once, bookkeeping and slot reuse, both shutdowns, in any interleaving with spurious wakeups; when the monitor changes the size of the pool |
| `RecencyList.dfy`, `DictCache.dfy`, `DictCacheThreads.dfy` | `src/dict_cache.c` | the stamped array refines a bounded recency list; stamps stay distinct under concurrent readers |
| `RouterCache.dfy`, `Router.dfy`, `RouterSql.dfy` | the cache logic of `src/router.c` and the SQL it writes | cached answers are current, and exactly when an insert endangers that |
| `TrieWords.dfy`, `Trie.dfy` | `src/trie.c` | a map from words to rows with prefix search in dictionary order |
| `LockRegistry.dfy`, `EngineLock.dfy`, `EngineLockProofs.dfy` | `src/engine_lock.c`, lock calls of `src/engine.c` | exclusion, matching releases, no deadlock |
| `CsvText.dfy`, `CsvReading.dfy`, `Csv.dfy` | CSV codec of `src/storage.c` | the file round trip, byte by byte; what any stream and any record is read as |
| `Like.dfy`, `Cells.dfy`, `Where.dfy`, `Select.dfy` | matcher, comparisons, WHERE, ORDER BY and LIMIT of `src/storage.c` | LIKE is matching; what each operator says; the one-pass loop is an expression of AND and OR; SELECT answers exactly, ranked as asked; when ORDER BY is an order |
| `IndexedRows.dfy`, `Rewrites.dfy`, `StorageIndex.dfy` | row, id and index bookkeeping of `src/storage.c` | exactly which runs of inserts keep index and rows in step and ids distinct, from a fresh process and after a rewrite |
| `QueryAgreement.dfy`, `Engine.dfy`, `EngineRuns.dfy` | `execute_select` and the statement loop of `src/engine.c` | index and trie paths answer what the scan answers, with the exact exceptions, over whole runs of statements |
| `SqlText.dfy`, `SqlStatements.dfy`, `SqlGrammar.dfy`, `SqlIncomplete.dfy`, `SqlFields.dfy`, `SqlRoundTrip.dfy`, `SqlProgram.dfy`, `SqlFormat.dfy` | `src/parser.c`, `src/sql_format.c` | the parser finds the meaning of every way of writing a statement, and overruns no buffer on any text; exactly which printed statements come back |
| `SqlAnswers.dfy` | from text to answer | a SELECT is answered as its text says, on either path |
| `Common.dfy` | | what several of them share |

Bytes are `char`, integers are unbounded unless a limit decides a branch (the ranges of `long` and `int` in number
parsing, the size check of the range buffer, buffer sizes of literals and SQL fields). `strtod` is a parameter that may return
NaN and the infinities; other doubles are reals.

## Where the code does not do what one might expect

Each is stated with the exact condition, most with an input that shows it besides.

- INSERT after DELETE or UPDATE: cached counters are zeroed but kept, so a new row is filed under position 0 and
  automatic ids restart at 0, which the index never holds after a rescan (`IndexedRows.InsertAfterRewrite`,
  `IndexedRows.RunAfterRewrite`), and which repeat ids that are still there (`IndexedRows.AutoRunAfterRewrite`).
- Explicit ids do not move the automatic counter, so automatic ids can repeat them
  (`IndexedRows.RunDistinctExactly`, `IndexedRows.MixedIdsCollide`).
- A rescan puts only positive ids in the index, while an INSERT files any id: a given id of 0 or less takes the
  index out of step for good (`IndexedRows.RunInStepExactly`).
- The id path returns only the last row of a repeated id, and with an index built from the rows no row of an id
  below 1 (`QueryAgreement.IdLookupAgrees`); the trie path only the last row of a repeated word
  (`QueryAgreement.PrefixLookupAgrees`).
- An INSERT whose id cell cannot be read fails after its row was appended: the row has no place in the index, and the
  trie misses it until the next write (`EngineRuns.WordsKeptExactly`).
- The id path reads a literal with blanks behind the number, the scan refuses it (`Engine.ExecuteSelect`).
- ORDER BY falls back to text order for cells that do not parse, and treats NaN as equal to every number; both can
  break transitivity (`Select.OrderExactly`, `Select.MixedColumnCycles`). WHERE `= nan` accepts every FLOAT cell
  that parses (`Cells.EqualExactly`).
- A BETWEEN is printed without its upper bound, so what is printed means something else
  (`SqlRoundTrip.RoundTrip`, `SqlRoundTrip.UpperBoundLost`).
- A value with a quote character, or one printed bare that is not made of word characters, does not survive printing
  and parsing (`SqlRoundTrip.ValueSurvivesExactly`).
- With more than 64 tables the lock registry gives no lock, and writers of one table can overlap
  (`EngineLockProofs.UnregisteredWritersOverlap`, `EngineLockProofs.WritersMeet`).
- Two hits of one cache key may store their stamps in reverse, so that the older use counts, until the entry is used
  or replaced again (`DictCacheThreads.OrderedByLastUseExactly`, `DictCacheThreads.HitsStoredInReverse`).
- A cache miss that overlaps an insert of its word puts an old answer back, and entries of ids are never dropped
  (`RouterCache.WriteSafeExactly`, `RouterCache.IdEntryFate`).
- Hard shutdown drops the queue, as the header says; `tests/test_threadpool.c:314-353` expects it to drain
  (`ThreadPoolProofs.HardShutdownDropsRest`).

## Model

| member | source | states |
|---|---|---|
| `BPlusTree.InsertRootCorrect` | src/bptree.c:222-266 | bptree_insert on any well-formed tree of order 3 or more gives a well-formed tree again, and changes the id-to-row map by exactly [id := row] |
| `BPlusTree.InsertAllCorrect` | src/bptree.c:251-266 | so after any sequence of insertions each id is mapped to the row of its last insertion |
| `BPlusTree.InsertWellFormed` | src/bptree.c:222-249 | below a node of any height and bounds: key order, separator bounds, uniform leaf depth, room and occupancy survive leaf and internal splits |
| `BPlusTree.InsertFlatten` | src/bptree.c:222-249 | on the in-order key list, insertion anywhere in the tree is sorted insertion with overwriting |
| `BPlusTree.PromotedKeyPosition` | src/bptree.c:233-242 | a promoted key lies strictly between its neighbouring separators, so internal_insert_nonfull puts it at the index descended through |
| `BPlusTree.FindInChild` | src/bptree.c:268-280 | one step down of a search loses no key: the chosen child answers for the whole node |
| `BPlusTree.FindIsMapLookup` | src/bptree.c:268-280 | looking through a sorted key list is map lookup, with -1 for an absent key |
| `BPlusTree.RangeRowsMember` | src/bptree.c:284-305 | a row is delivered exactly if some key in [from, to] holds it |
| `BPlusTree.RangeOfMap` | src/bptree.c:284-305 | the delivered rows are the values of the map restricted to [from, to], in ascending key order |
| `BPlusTree.HalfFullSize` | src/bptree.c:160-217 | a half-full node of height h has at least the keys the occupancy rule forces: every split leaves both parts half full |
| `BPlusTree.HeightBound` | src/bptree.c:160-217 | a tree of height h >= 1 holds at least 2 * ceil(order/2)^(h-1) * floor(order/2) keys |
| `BPlusTree.ContentSize` | src/bptree.c:284-305 | the map has as many keys as the leaves have entries: no key is stored twice |
| `BPlusTreeNodes.Node.NewLeaf` | src/bptree.c:52-67 | a fresh empty leaf with arrays of its own and no successor |
| `BPlusTreeNodes.Node.NewInner` | src/bptree.c:71-85 | a fresh empty internal node with arrays of its own |
| `BPlusTreeNodes.Node.ChildIndex` | src/bptree.c:125-132 | the index of the child responsible for a key: separators before it are at most the key, the next one is above |
| `BPlusTreeNodes.Node.LeafInsertSorted` | src/bptree.c:137-152 | in place: the leaf holds the sorted insertion of the pair into what it held, an equal key overwritten |
| `BPlusTreeNodes.Node.FindInLeaf` | src/bptree.c:268-280 | the row of the key in this leaf, or -1 |
| `BPlusTreeNodes.Node.InternalInsertNonfull` | src/bptree.c:180-191 | in place: the key and the child to its right are inserted at the index of the key, everything else keeps its order |
| `BPlusTreeNodes.Node.SplitLeaf` | src/bptree.c:160-176 | in place: the leaf keeps the lower half, a fresh right leaf gets the rest and is linked in between it and its old successor |
| `BPlusTreeNodes.Node.SplitInternal` | src/bptree.c:200-217 | in place: the middle key goes up, a fresh node gets the keys and children above it |
| `BPlusTreeNodes.InsertRec` | src/bptree.c:222-249 | the nodes below are changed in place into the outcome of the insertion on shapes, sharing no storage, leaves chained, and nothing outside them changes |
| `BPlusTreeChain.LeavesAreChained` | src/bptree.c:160-176 | following next from the leftmost leaf visits exactly the in-order leaves, and they hold exactly the in-order entries |
| `BPlusTreeHeap.BPTree.Create` | src/bptree.c:103-114 | orders below 3 are refused; otherwise a valid empty tree |
| `BPlusTreeHeap.BPTree.Insert` | src/bptree.c:251-266 | the tree stays valid (shape, chain, separation) and its map becomes the old map with [id := row] |
| `BPlusTreeHeap.BPTree.Search` | src/bptree.c:268-280 | the row the map gives for the id, or -1 |
| `BPlusTreeHeap.BPTree.Range` | src/bptree.c:284-305 | the first maxOut of the rows in [from, to], in ascending key order, are written to the buffer, and their number returned |
| `BPlusTreeChain.ScanLeaf` | src/bptree.c:284-305 | one leaf of that walk: stops at the first key past the range or at a full buffer, with a prefix of the rows wanted in the buffer |
| `BPlusTreeHeap.CollectRows` | src/bptree.c:284-305 | the walk along the next pointers from the leaf responsible for from collects all wanted rows until the buffer is full |
| `ThreadPoolProofs.CreateInv` | src/threadpool.c:312-361 | threadpool_create with 1 to 64 workers starts exactly that many and establishes the pool invariant |
| `ThreadPoolProofs.StepKeeps` | src/threadpool.c:116-506 | every critical section of every thread, and every spurious wakeup, keeps the pool invariant |
| `ThreadPoolProofs.RunInv` | src/threadpool.c:116-506 | so it holds in every state of every run, in any interleaving |
| `ThreadPoolProofs.EnterKeeps` | src/threadpool.c:123-149 | the first critical section of the worker loop (wait, leave or take the head job) keeps the invariant |
| `ThreadPoolProofs.SubmitKeeps` | src/threadpool.c:363-395 | an accepted job together with its one signal keeps the invariant whichever waiting worker the signal unblocks |
| `ThreadPoolProofs.SubmitExactly` | src/threadpool.c:363-395 | a submission is accepted exactly if neither shut down nor closed and below the queue limit, 0 meaning none; then its job is the last of the queue; a refusal changes only the count of those at the limit |
| `ThreadPoolProofs.QueueBounded` | src/threadpool.c:363-395 | in every run that leaves the limit as it is the queue never has more than 256 jobs |
| `ThreadPoolProofs.SignalReadies` | src/threadpool.c:387-392 | the signal of a submission gives the new job a worker of its own whenever some worker was waiting |
| `ThreadPoolProofs.ExpandKeeps` | src/threadpool.c:177-201 | expanding keeps the invariant and never goes past the target |
| `ThreadPoolProofs.ExpandFrame` | src/threadpool.c:177-201 | expanding touches no slot that has a thread and falls short of the target only if every slot has one |
| `ThreadPoolProofs.MarkRetireKeeps` | src/threadpool.c:207-228 | marking workers for retirement and the broadcast behind it keep the invariant |
| `ThreadPoolProofs.RetireFromTop` | src/threadpool.c:207-228 | workers are flagged from the highest slot down: none is flagged below one that is passed over |
| `ThreadPoolProofs.StartFromBelow` | src/threadpool.c:177-201 | threads are started in the lowest free slots |
| `ThreadPoolProofs.WorkConservation` | src/threadpool.c:116-171 | in every reachable state, while some worker waits for work the queue is no longer than the awake workers that will take from it: no accepted job is stranded |
| `ThreadPoolProofs.NeverAsleepOnWork` | src/threadpool.c:116-171 | with jobs queued and no shutdown, some member of the pool is awake or running a job |
| `ThreadPoolProofs.FifoOrder` | src/threadpool.c:363-395 | until a hard shutdown drops the rest, the jobs dispatched so far followed by the queue are exactly the accepted submissions in order |
| `ThreadPoolProofs.ExactlyOnce` | src/threadpool.c:138-168 | a job has been dispatched exactly if it is finished or running; never both, and in one slot only |
| `ThreadPoolProofs.NoJobRunsTwice` | src/threadpool.c:138-168 | no two job returns of a run are returns of the same job |
| `ThreadPoolProofs.Bookkeeping` | src/threadpool.c:177-304 | active_workers counts the threads holding a job; n_workers counts the live members and stays between the floor and max(16, floor) |
| `ThreadPoolProofs.SlotLifecycle` | src/threadpool.c:177-241 | a slot gets a new thread only when none is left in it, a running job ends only by its own return, an exited thread leaves its slot only by a join |
| `ThreadPoolProofs.GracefulFinishesAll` | src/threadpool.c:442-474 | if the wait loop of graceful shutdown ends on its own condition, every accepted job has finished, and none is accepted later |
| `ThreadPoolProofs.HardShutdownDropsRest` | src/threadpool.c:410-440 | a hard shutdown lets exactly the jobs dispatched before its flag finish and drops exactly the queue (the code and include/threadpool.h, not the drain that tests/test_threadpool.c expects) |
| `ThreadPoolProofs.ResizeReaches` | src/threadpool.c:476-506 | a resize that is not refused reaches the requested size clamped to floor and soft cap, unless every slot has a thread |
| `ThreadPoolClass.JobQueue.Append` | src/threadpool.c:376-386 | the linked job list grows by the job at its end |
| `ThreadPoolClass.JobQueue.Take` | src/threadpool.c:138-144 | the linked job list loses its head, which is returned |
| `ThreadPoolClass.JobQueue.FreeJobs` | src/threadpool.c:102-112 | every job of the list is visited once and the queue is empty |
| `ThreadPoolClass.StartSlots` | src/threadpool.c:177-201 | the slot loop fills free slots in order, in place on the flag arrays, until the target is met |
| `ThreadPoolClass.FlagSlots` | src/threadpool.c:207-228 | the slot loop flags members from the highest slot down, in place, and lists them |
| `ThreadPoolClass.RetireListed` | src/threadpool.c:207-228 | the listed slots are exactly the newly flagged ones, at most as many as asked for |
| `ThreadPoolClass.WorkerPool.Create` | src/threadpool.c:312-361 | refused outside 1 to 64 workers; otherwise the concrete pool stands for the created one of the state machine |
| `ThreadPoolClass.WorkerPool.Submit` | src/threadpool.c:363-395 | the concrete fields take exactly the submit step: refusals, the rejected counter, the new tail, the signal |
| `ThreadPoolClass.WorkerPool.EnterSection` | src/threadpool.c:123-149 | the concrete fields take exactly the worker step, and the job handed out is the head of the queue |
| `ThreadPoolClass.WorkerPool.FinishSection` | src/threadpool.c:156-162 | the concrete fields take exactly the finish step |
| `ThreadPoolClass.WorkerPool.ExpandLocked` | src/threadpool.c:177-201 | the concrete fields take exactly the expansion, and the return value is the number of threads started |
| `ThreadPoolClass.WorkerPool.MarkRetireLocked` | src/threadpool.c:207-228 | the concrete fields take exactly the retirement; the slots listed for joining are the newly flagged ones |
| `ThreadPoolClass.WorkerPool.JoinSection` | src/threadpool.c:232-241 | a joined slot becomes free again |
| `ThreadPoolClass.WorkerPool.Resize` | src/threadpool.c:476-506 | the concrete fields take exactly the resize step, with -1 for a refusal, and list exactly the slots to join |
| `ThreadPoolClass.WorkerPool.Sample` | src/threadpool.c:245-304 | the concrete fields take exactly one monitor sample, and that is: nothing after a shutdown; a skip uses up one skip; at 80% or more the third sample in a row starts up to 4 threads, up to 16; at 30% or less the thirtieth in a row retires up to 4, down to the floor; in between both counts go to 0 |
| `PoolMonitor.SampleExactly` | src/threadpool.c:245-304 | a sample is that step, said on the counts of workers and active workers, the skips and the two counters |
| `PoolMonitor.SampleDirection` | src/threadpool.c:245-304 | one sample adds workers only at 80% or more, drops them only at 30% or less, and moves their number by at most 4 |
| `PoolMonitor.ThirdHighGrows` | src/threadpool.c:272-281 | three samples in a row at 80% or more, from no skips and a count of 0, raise a pool below 16 to min(16, n + 4), where slots are free, and nothing before the third does |
| `PoolMonitor.ThirtiethLowShrinks` | src/threadpool.c:282-294 | thirty in a row at 30% or less lower a pool above its floor to max(floor, n - 4), and nothing before the thirtieth does |
| `PoolMonitor.StepThenSkips` | src/threadpool.c:255-294 | a step is followed by exactly two samples that do nothing but count down |
| `PoolMonitor.CountsReset` | src/threadpool.c:295-298 | a sample between the two marks sets both counts back, and one at a mark sets the other back |
| `PoolMonitor.StepsNeedARow` | src/threadpool.c:245-304 | in any run of samples a step up has three samples in a row at 80% or more behind it, a step down thirty at 30% or less |
| `ThreadPoolClass.WorkerPool.ShutdownSection` | src/threadpool.c:415-419 | the flag is set and every waiting worker is woken |
| `ThreadPoolClass.WorkerPool.FreeSection` | src/threadpool.c:435-439 | the jobs still queued are freed, as many as there were |
| `RecencyList.RunCorrect` | src/dict_cache.c:149-243 | in every run of operations keys stay unique, the list within capacity, and a hit returns the value last put since the last invalidation |
| `RecencyList.EvictedExactly` | src/dict_cache.c:76-95 | after a put or a hit of a key, gets and puts of other keys evict it exactly when they use (put or hit) at least as many distinct keys as the cache has places |
| `RecencyList.GetKeeps` | src/dict_cache.c:149-180 | a hit changes no value and no key, only the order |
| `RecencyList.PutKeeps` | src/dict_cache.c:182-215 | a put makes its value the one found and can only lose other keys, never change them |
| `DictCache.OldestIsLast` | src/dict_cache.c:76-95 | in a full array the slot with the smallest stamp is the last of the recency list |
| `DictCache.OrderSize` | src/dict_cache.c:76-95 | the list is as long as the array exactly when no slot is free |
| `DictCache.Cache.constructor` | src/dict_cache.c:97-130 | an empty cache; a capacity of zero or less means the default of 128 |
| `DictCache.Cache.Find` | src/dict_cache.c:63-74 | the slot of a key, or -1 if no slot holds it |
| `DictCache.Cache.SlotForPut` | src/dict_cache.c:76-95 | the first free slot, or a slot whose stamp is smallest if none is free |
| `DictCache.Cache.Get` | src/dict_cache.c:149-180 | a hit returns the stored value and moves its key to the front of the recency list; counters and refusals as in the code |
| `DictCache.Cache.Put` | src/dict_cache.c:182-215 | the key goes to the front; a new key in a full cache pushes out exactly the last of the list |
| `DictCache.Cache.Invalidate` | src/dict_cache.c:217-229 | the list loses exactly that key |
| `DictCache.Cache.InvalidateAll` | src/dict_cache.c:231-243 | the list is empty and the clock back at zero |
| `DictCacheThreads.StampsStayDistinct` | src/dict_cache.c:157-178 | in every interleaving of readers, whose fetch-add and store are separate steps, live stamps are pairwise distinct and at most the clock |
| `DictCacheThreads.ResetSafeExactly` | src/dict_cache.c:237-242 | resetting the clock keeps that exactly when no reader has a slot or stamp in hand, which the write lock excludes |
| `DictCacheThreads.WriterSeesRecencyList` | src/dict_cache.c:199-213 | whatever readers did, the array a writer finds stands for a recency list: live slots by falling stamps, where each stamp was taken by a put or hit of that key, no earlier than its last put |
| `DictCacheThreads.StoreKeepsExactly` | src/dict_cache.c:173-178 | a store of a stamp keeps the last use of its key exactly if it was kept before and some thread on the way to the slot brings a newer stamp than is there |
| `DictCacheThreads.OrderedByLastUseExactly` | src/dict_cache.c:157-213 | over every run, when the readers have left: each live slot is stamped with the last use of its key exactly if no store put an older stamp back with nothing after it that used, replaced or removed the entry |
| `DictCacheThreads.HitsStoredInReverse` | src/dict_cache.c:173-178 | an interleaving in which two hits of one key store their stamps in reverse: the older stamp stays, and the key last used counts as the least recently used |
| `RouterCache.HitsAreCurrent` | src/router.c:688-703 | in any run where no insert of a word meets an answer for it on the way to the cache, a hit for a lowercase word serves what a query would find, unless an insert of the word is still under way |
| `RouterCache.WriteSafeExactly` | src/router.c:579-587 | an insert keeps the cache coherent exactly when no request holds an answer for its word that it has not yet put |
| `RouterCache.StepKeeps` | src/router.c:579-722 | every other step of every request keeps it coherent |
| `RouterCache.RunInv` | src/router.c:579-722 | so it is coherent throughout every such run |
| `RouterCache.SequentialHitsAreCurrent` | src/router.c:539-722 | in every run of requests that do not overlap, a hit for a lowercase word serves exactly what a query would find |
| `RouterCache.AnswerIsSelect` | src/router.c:636-658 | what counts as the answer is the result of the SELECT the handler makes, in the columns it asks for, over the rows its path selects |
| `RouterCache.SelectedIsScan` | src/storage.c:782-838 | for an id that path is the index, and selects what the scan selects exactly when the index says all about the id |
| `RouterCache.OverlapLeavesStale` | src/router.c:688-722 | a miss that overlaps an insert of its word leaves an out-of-date answer in the cache after both have ended, from any table |
| `RouterCache.IdEntryFate` | src/router.c:579-587 | the entry of an id is never dropped by an insert, and is out of date afterwards exactly when the index then gives the new row for that id and the entry does not show its words |
| `RouterCache.KeysDiffer` | src/router.c:636-658 | different lookups have different cache keys |
| `Router.CacheKey` | src/router.c:636-658 | that of the word if one is given, else that of an id of digits; any other id has none |
| `RouterSql.WordAsked` | src/router.c:636-658 | the SQL text the handler writes for a lowercase word is parsed as exactly the SELECT that the answer is defined by |
| `RouterSql.IdAsked` | src/router.c:636-658 | and the text for an id |
| `Router.Dictionary.DictRequest` | src/router.c:601-722 | one request: refusals, exactly when; a hit for exactly the keys in the cache, which serves their text; a miss that puts the answer under its key; an answer served for a lowercase word is what a query finds now |
| `Router.Dictionary.AdminInsert` | src/router.c:539-599 | one request: the row is added and exactly the entry of its word dropped, and the cache stays coherent |
| `TrieWords.LexListUnique` | src/trie.c:163-190 | the list of words with a prefix in dictionary order is determined |
| `TrieWords.UnderIsLexList` | src/trie.c:163-190 | the walk over the children a to z lists exactly the words with the prefix, in dictionary order |
| `Trie.Trie.constructor` | src/trie.c:21-35 | an empty map |
| `Trie.Trie.Insert` | src/trie.c:46-69 | the word map becomes the old one with [word := row]; a bad word or row is refused and changes nothing |
| `Trie.Trie.SearchExact` | src/trie.c:71-90 | the row the map gives for the word, or -1 |
| `Trie.Trie.SearchPrefix` | src/trie.c:92-117 | the rows of the first maxOut words with the prefix, in dictionary order, and nothing past them is written |
| `Trie.Trie.Collect` | src/trie.c:163-190 | appends the rows below a node in that order until the buffer is full, and says whether it is |
| `Trie.Trie.WordIsValid` | src/trie.c:147-161 | non-empty and made of a to z only |
| `LockRegistry.Registry.Find` | src/engine_lock.c:78-85 | the slot of a registered name, or -1 |
| `LockRegistry.Registry.GetOrCreate` | src/engine_lock.c:60-76 | a known name keeps its slot, a new one gets the first free slot, and a full registry gives none |
| `EngineLockProofs.StepKeeps` | src/engine.c:1038-1088 | every lock call of every thread keeps the protocol invariant |
| `EngineLockProofs.RunInv` | src/engine.c:1038-1088 | so it holds in every interleaving |
| `EngineLockProofs.TakeCatalogExactly` | src/engine.c:1038-1067 | CREATE gets the catalog exactly when every thread is idle or waits for the catalog, any other statement exactly when no CREATE runs |
| `EngineLockProofs.TakeTableExactly` | src/engine.c:1038-1067 | a statement gets its table exactly when the table has no slot, or no other statement runs on it, reads beside a read apart |
| `EngineLockProofs.WriterExcludes` | src/engine_lock.c:122-150 | while a statement writes a registered table no other statement runs on that table |
| `EngineLockProofs.CreateExcludesAll` | src/engine_lock.c:152-166 | while CREATE runs every other thread is idle or waits for the catalog |
| `EngineLockProofs.ReleaseMatches` | src/engine.c:1069-1088 | every release finds the lock its thread acquired, in the mode it acquired it |
| `EngineLockProofs.NoDeadlock` | src/engine.c:1038-1067 | while some statement is under way some thread can take its next step, whether or not the locks prefer writers |
| `EngineLockProofs.StepsRunOut` | src/engine.c:1038-1088 | every step of a statement shortens what is left, so without new statements every run ends |
| `EngineLockProofs.RegisteredWhenFew` | src/engine_lock.c:60-76 | with fewer than 64 tables registered every running statement has its table registered |
| `EngineLockProofs.UnregisteredWritersOverlap` | src/engine_lock.c:122-142 | two waiting writers of one table can run together exactly when the table has no slot |
| `EngineLockProofs.WritersMeet` | src/engine_lock.c:60-76 | and that happens: a run that uses 64 tables and then has two threads wait to write a 65th |
| `CsvText.RowRoundTrip` | src/storage.c:2388-2563 | a written row of NUL-free fields is read back whole and parsed into its fields, and the next read starts right behind it; LF or CRLF ends it (section 2 of RFC 4180) |
| `CsvText.FileRoundTrip` | src/storage.c:2011-2563 | reading a written file gives exactly its rows in order and then end of file |
| `CsvText.FileTextInjective` | src/storage.c:2011-2077 | different tables are written as different files |
| `CsvText.AppendRow` | src/storage.c:1773-1803 | a file with the text of one row more reads as its rows and that row |
| `CsvText.ReadShortens` | src/storage.c:2388-2462 | every record uses up input, so the reading loop ends |
| `CsvReading.ReadExactly` | src/storage.c:2388-2462 | of any stream: the record ends at the first line break (LF, CR LF or CR) outside quotes, or at the end of the file, and is all before it; without such an end, in an open quote, it is the error |
| `CsvReading.ParseExactly` | src/storage.c:2467-2563 | of any record: it is parsed into fields exactly if it is those fields, each bare or quoted with doubled quotes, with a comma between them; anything else is the error |
| `CsvReading.LastLine` | src/storage.c:2388-2462 | a last row without a line break is read like the others, unless it is empty text |
| `Csv.WriteCsvField` | src/storage.c:2035-2077 | character by character: the bare field, or the quoted one with quotes doubled, exactly as the round trip needs |
| `Csv.WriteCsvRow` | src/storage.c:2011-2030 | the fields separated by commas and ended by LF |
| `Csv.ReadCsvRecord` | src/storage.c:2388-2462 | 1 with the next record and the stream behind it, 0 at end of file, -1 for an unclosed quote |
| `Csv.ParseCsvRecord` | src/storage.c:2467-2563 | the fields of a record, or the error for text behind a closing quote or an unclosed one |
| `Csv.ReadAll` | src/storage.c:3329-3389 | the record loop of a table scan reads the whole file as its rows |
| `Like.LikeIsMatching` | src/storage.c:2882-2923 | deciding from the left succeeds exactly when the text can be cut into one piece per pattern character, % standing for any text and _ for any character |
| `Like.LikeMatch` | src/storage.c:2882-2923 | like_match ends, and answers 1 exactly when there is such a cut |
| `Like.LiteralPattern` | src/storage.c:2882-2923 | a pattern without wildcards matches only itself |
| `Like.PrefixPattern` | src/storage.c:2882-2923 | prefix% matches exactly the texts that start with prefix |
| `Like.InfixPattern` | src/storage.c:2882-2923 | %part% matches exactly the texts that contain part |
| `Cells.EqualsIgnoreCase` | src/storage.c:3133-3144 | 1 exactly for equal length and letters equal up to ASCII case |
| `Cells.FindSchemaIndex` | src/storage.c:1406-1421 | the first column of that name in any case, or -1 |
| `Cells.CompareValueByType` | src/storage.c:2714-2787 | the truth of the comparison, or an error for an operand that does not parse or an operator the type does not have: of the two numbers for INT, FLOAT (NaN equal to all) and BOOLEAN, by the first differing character for VARCHAR and DATE, only = and != for DATETIME |
| `Cells.EvaluateSelectClause` | src/storage.c:3464-3505 | the errors of a condition (column, operator, operator for the type, literal), and otherwise its truth in those terms, with LIKE as matching |
| `Cells.CompareTells` | src/storage.c:2714-2802 | =, !=, >, <, >= and <= answer as those signs say of the numbers or texts compared |
| `Cells.EvaluateTells` | src/storage.c:3464-3505 | a condition on the first column of the name, in any case, says that of the cell and the literal without its quotes |
| `Cells.StrcmpMeans` | src/storage.c:2714-2787 | the sign of a text comparison is that of the first differing character, and a proper prefix comes first |
| `Cells.SameNameMeans` | src/storage.c:3133-3144 | names are the same if they differ in the case of letters at most |
| `Cells.StripQuotesMeans` | src/storage.c:3178-3203 | one pair of quotes of either kind around the text is dropped, at most 255 characters are kept, and a text without quotes stays as it is |
| `Cells.ParseLongExactly` | src/storage.c:2816-2833 | a text parses as v exactly if it is blanks, an optional sign and the digits of v, and v fits a long |
| `Cells.BooleanExactly` | src/storage.c:2860-2877 | a text is 1 or 0 exactly if it is that digit, or true or false with letters in any case |
| `Cells.EqualExactly` | src/storage.c:2734-2745 | two FLOAT texts that parse compare as equal, in ORDER BY and in WHERE, exactly when their values are equal or one of them is NaN |
| `Cells.ParsePrinted` | src/storage.c:2816-2833 | a number printed with %d is parsed back as itself |
| `Where.RowMatches` | src/storage.c:2637-2679 | the one-pass loop decides: no condition accepts; any bad clause or link is an error; otherwise some maximal AND-group holds throughout |
| `Where.OneGroup` | src/storage.c:2637-2679 | the AND-groups are determined by their ends |
| `Where.CloseGroup` | src/storage.c:2637-2679 | an OR adds the open group to the groups that may accept |
| `Where.ExtendGroup` | src/storage.c:2637-2679 | an AND leaves them alone and lengthens the open group |
| `Where.LastGroup` | src/storage.c:2637-2679 | the end of the list closes the last group |
| `Where.WhereIsExpression` | src/storage.c:2637-2679 | where every condition and link can be read, WHERE is the truth of the conditions joined by AND and OR, AND binding tighter |
| `Where.WhereErrorExactly` | src/storage.c:2637-2679 | WHERE is in error exactly if some condition cannot be evaluated or some link is neither AND nor OR |
| `Select.CollectMatchingRows` | src/storage.c:3535-3565 | the accepted rows in table order, or an error if WHERE is in error on some row |
| `Select.MatchingError` | src/storage.c:3535-3565 | there is an error exactly if WHERE is in error on some row |
| `Select.MatchingExactly` | src/storage.c:3535-3565 | the k-th selected row is the one at the k-th accepted position |
| `Select.CompareIsPreorder` | src/storage.c:3567-3649 | on cells that parse, NaN apart, the comparison is transitive |
| `Select.OrderExactly` | src/storage.c:3633-3685 | ORDER BY, in either direction and for every column type, compares by a preorder exactly when no cell that does not parse lies, as text, between two that do against the order of their values, and no NaN stands beside two different numbers |
| `Select.ParsedColumnsOrder` | src/storage.c:3567-3649 | where all cells parse only such a NaN is in the way |
| `Select.MixedCellsCycle` | src/storage.c:3633-3685 | with such a cell between two of different value no arrangement of the rows is sorted, in either direction |
| `Select.MixedColumnCycles` | src/storage.c:3633-3649 | for instance no arrangement of 9, 10 and 1a in an INT column |
| `Select.ExchangeSort` | src/storage.c:3651-3685 | the in-place double loop leaves a permutation, and a sorted one whenever the comparison is an order on the rows |
| `Select.SortSelection` | src/storage.c:3651-3685 | unchanged without ORDER BY, -1 for an unknown column, otherwise a permutation, sorted if the comparison is an order on the rows; and where all cells of the column parse, NaN apart, ranked: by number for INT, FLOAT and BOOLEAN, by text for the other types, upwards for ASC and downwards for DESC |
| `Select.SortedMeans` | src/storage.c:3567-3649 | rows sorted by the comparison are ranked by the values of the column |
| `Select.BuildRowset` | src/storage.c:3870-3920 | the first limit rows in the columns asked for, or an error for an unknown column |
| `Select.StorageSelectResult` | src/storage.c:703-780 | an error exactly for unknown columns or WHERE in error on some row; otherwise the first limit rows of such a ranked permutation of exactly the accepted rows, each cut to the cells of the columns asked for |
| `Select.AnswersListed` | src/storage.c:3870-3920 | any answer of a SELECT is that list: ranked as asked, cut to length and to columns |
| `IndexedRows.IndexMeans` | src/storage.c:1573-1611 | a rescan maps each positive id to the last position holding it, and nothing else |
| `IndexedRows.EnsureInStep` | src/storage.c:271-422 | storage_ensure_index on a fresh table puts index and counters in step with the rows |
| `IndexedRows.LeadingNumberExactly` | src/storage.c:1518-1554 | an id cell is read as v exactly if the text starts with v: blanks, a sign if any, and all the digits there |
| `IndexedRows.FirstAutomaticId` | src/storage.c:1518-1554 | the first automatic id behind a scan is one more than the largest id of the rows, or 1 if none is positive |
| `IndexedRows.InsertInStep` | src/storage.c:465-632 | an INSERT with a positive or automatic id stays in step, appends exactly its row, and an automatic id is the next one |
| `IndexedRows.RunInStep` | src/storage.c:465-632 | after storage_ensure_index any run of such INSERTs keeps the index exactly the map from ids to last positions and the row counter exact |
| `IndexedRows.RunInStepExactly` | src/storage.c:465-632 | a run of INSERTs with any ids stays in step exactly when each id is automatic or positive |
| `IndexedRows.InsertDistinctExactly` | src/storage.c:465-632 | an INSERT keeps ids distinct exactly when its id, given or automatic, is not there yet |
| `IndexedRows.IndexTellsRepeats` | src/storage.c:465-632 | in step, an automatic or positive id is a repetition exactly when the index has it |
| `IndexedRows.RunDistinctExactly` | src/storage.c:465-632 | any mixed run keeps ids distinct exactly when no two of the old ids, the given ids and the automatic ids from the counter on are equal |
| `IndexedRows.AutoIdsDistinct` | src/storage.c:465-632 | runs of automatic ids keep ids distinct |
| `IndexedRows.MixedIdsCollide` | src/storage.c:624-630 | explicit ids do not move the automatic counter: for instance one explicit and one automatic INSERT store the same id |
| `IndexedRows.EmptiedNeverSeen` | src/storage.c:465-632 | while in step, the check for a vanished file changes nothing |
| `IndexedRows.RewriteExact` | src/storage.c:1573-1611 | right after a DELETE or UPDATE the index is exactly the map of the rewritten rows |
| `IndexedRows.InsertAfterRewrite` | src/storage.c:1558-1568 | the INSERT after it, automatic or with any id, leaves the index right exactly if the counters were not cached and the id is automatic or positive, or they were and a positive id is given for an empty table, or the id cell cannot be read; it is in step exactly in the first case |
| `IndexedRows.AutoRunAfterRewrite` | src/storage.c:1558-1568 | automatic ids after it restart at 0 if the counters were cached, and repeat an id exactly when the table still holds one of those handed out; otherwise they go on above all ids |
| `IndexedRows.RunLeavesRightExactly` | src/storage.c:465-632 | a run of INSERTs with any ids leaves a right index right exactly if it files no id, or the row counter was right, every id it files is positive, and none comes behind a row without a readable one |
| `IndexedRows.RunAfterRewrite` | src/storage.c:1558-1568 | the same for whole runs after a DELETE or UPDATE: with cached counters exactly if no id is filed, or the table is empty and all ids filed are given, positive and none behind an unreadable one |
| `IndexedRows.EnsuredSound` | src/storage.c:271-422 | storage_ensure_index, also when it comes after INSERTs, makes the index that of the rows exactly when only ids of the rows were filed before |
| `IndexedRows.InsertedSound` | src/storage.c:465-632 | an INSERT at any time keeps that so exactly if it files no id, or a positive one and, once the index is built, with a right row counter; otherwise the index is wrong for good |
| `Rewrites.DeletePartitions` | src/storage.c:2186-2281 | what a DELETE keeps and what a SELECT with the same WHERE finds are together all the rows, with the same errors |
| `Rewrites.KeptExactly` | src/storage.c:2186-2281 | the rows kept are those at exactly the positions WHERE refuses, in order |
| `Rewrites.DeletedAreGone` | src/storage.c:2186-2281 | a SELECT with the same WHERE finds nothing afterwards |
| `Rewrites.AssignedCells` | src/storage.c:2681-2709 | an UPDATE of a row changes exactly the cells its SET clause names |
| `Rewrites.UpdatedRows` | src/storage.c:2283-2383 | an UPDATE keeps every row in place and changes exactly the matching ones |
| `StorageIndex.TableStore.EnsureIndex` | src/storage.c:271-422 | on the program's own B+ tree: one scan fills tree and counters, once |
| `StorageIndex.TableStore.ScanMeta` | src/storage.c:1518-1554 | the largest id and the number of rows |
| `StorageIndex.TableStore.Insert` | src/storage.c:428-640 | row, tree and counters afterwards: the id, of any sign, is filed under the position the row counter gives |
| `StorageIndex.TableStore.Rewrite` | src/storage.c:1558-1611 | a fresh tree with exactly the ids of the new rows, counters zeroed |
| `StorageIndex.TableStore.Delete` | src/storage.c:645-691 | an error leaves everything as it was; otherwise the kept rows and their rebuilt index |
| `StorageIndex.TableStore.Update` | src/storage.c:972-1025 | an error leaves everything as it was; otherwise the updated rows and their rebuilt index |
| `StorageIndex.KeptRows` | src/storage.c:2186-2281 | the record loop of DELETE keeps exactly the rows WHERE refuses |
| `StorageIndex.UpdatedTable` | src/storage.c:2283-2383 | the record loop of UPDATE changes exactly the rows WHERE accepts |
| `QueryAgreement.IdLookupAgrees` | src/storage.c:782-838 | WHERE id = k through the tree selects what the scan selects exactly when the index says all about k: a positive id at most once in the rows, any other not at all |
| `QueryAgreement.LiteralAgrees` | src/engine.c:798-817 | a literal the scan reads has the same value for the index path, or none outside the range of int |
| `QueryAgreement.ParseIntExactly` | src/engine.c:798-817 | the index path reads a literal as v exactly if, without its quotes, it is blanks, an optional sign, the digits of v and blanks again, and v fits an int |
| `QueryAgreement.RangeSelects` | src/storage.c:840-952 | BETWEEN through the tree selects exactly the rows with an id in bounds, each once, by ascending id |
| `QueryAgreement.PrefixLookupAgrees` | src/storage.c:840-952 | english LIKE 'p%' through trie and sort selects the rows of the scan in its order exactly when no word with the prefix is repeated |
| `QueryAgreement.ScanIsPositions` | src/storage.c:3535-3565 | the accepted positions determine what a scan selects |
| `QueryAgreement.SingleClause` | src/storage.c:2637-2679 | with one condition WHERE decides what that condition says |
| `Engine.RangePositions` | src/engine.c:662-677 | the doubling loop ends with every match, untruncated, when there are fewer than 2^30, and with the size error otherwise |
| `Engine.LoadRowAtIndex` | src/storage.c:3391-3462 | the row at that position if there is one |
| `Engine.SelectByRowIndices` | src/storage.c:910-932 | the rows at the listed positions, in that order |
| `Engine.RebuildTrie` | src/engine.c:947-999 | the trie holds the last position of every word, or is empty and not ready if some word is not over a to z |
| `Engine.SortInts` | src/engine.c:919-927 | a sorted arrangement of the same positions, which is all that qsort with int_compare promises |
| `Engine.PrefixPositions` | src/engine.c:705-723 | the positions of all words with the prefix, sorted; none if there might be more than the buffer holds |
| `Engine.ExecuteSelect` | src/engine.c:643-745 | after storage_ensure_index, where index and trie say all about what is asked, the answer is that of the scan whichever path is taken, except exactly for an id literal that the index path reads and the scan refuses |
| `Engine.BlankBehindNumber` | src/engine.c:798-817 | such a literal: '5 ' is 5 to the index path and an error to the scan |
| `Engine.ExecuteRange` | src/engine.c:643-690 | BETWEEN on a key column in step: if both literals are numbers a and b for the index path, exactly the rows with an id between the smaller and the larger of them, by ascending id, then ORDER BY and LIMIT, with errors exactly for 2^30 rows or more or an unknown column; otherwise what the scan answers |
| `Engine.ScanRefusesBetween` | src/storage.c:2948-2957 | the scan has no BETWEEN: it is an error there exactly on a table with rows |
| `EngineRuns.ExecuteStatements` | src/engine.c:147-268 | the statement loop on one table, the dictionary with its trie included, over any run of INSERT, SELECT, DELETE and UPDATE that their input checks let through, from a state where index and trie are right: the rows, index, counters and trie afterwards and each reply; a SELECT answers as a scan of the rows it meets, with the exception of ExecuteSelect, or by ExecuteRange, if the run before it kept index and trie right and the index says all about what is asked |
| `EngineRuns.IndexKeptExactly` | src/engine.c:593-641 | at every point of every run the index is sound exactly if each INSERT since the last DELETE or UPDATE that rewrote the file filed rightly |
| `EngineRuns.WordsKeptExactly` | src/engine.c:1012-1017 | at every point of every run on the dictionary a ready trie holds the words of the rows exactly if, since the last write that succeeded, no INSERT failed after its row was appended |
| `EngineRuns.KeptWithoutZeroing` | src/engine.c:593-641 | so runs with positive or automatic ids keep both right, if no INSERT comes behind a DELETE or UPDATE that zeroed cached counters |
| `EngineRuns.ExecuteStatement` | src/engine.c:593-641 | one statement of that run: rows, index, counters and trie afterwards, and the reply |
| `EngineRuns.ExecuteInsert` | src/engine.c:618-622 | an INSERT and, if it succeeds on the dictionary, the rebuild of the trie |
| `EngineRuns.ExecuteRewrite` | src/engine.c:623-632 | a DELETE or UPDATE, likewise |
| `EngineRuns.ExecuteQuery` | src/engine.c:643-745 | a SELECT on either path |
| `EngineRuns.Refresh` | src/engine.c:947-1017 | the trie after a write that succeeded: the last positions of the words in the column english, or not ready without such a column or with a word that is not over a to z |
| `EngineRuns.ReadWords` | src/engine.c:966-985 | SELECT english FROM dictionary gives the words of the rows in table order |
| `EngineRuns.Start` | src/engine.c:111-144 | a new process starts in a state where index and trie are right |
| `SqlAnswers.ExecuteText` | src/engine.c:593-745 | a SELECT from its text: tokenizer, parser and either path; nothing is changed, and the reply is as ExecuteSelect or ExecuteRange say of the statement parsed |
| `SqlAnswers.TextAnswered` | src/engine.c:643-745 | where the index says all about what is asked, a SELECT in any way of writing it is answered by the rows that meet its conditions, joined as the text joins them, ranked, cut to length and to columns as the text says |
| `SqlAnswers.BetweenAnswered` | src/engine.c:643-690 | and id BETWEEN a AND b by the rows with an id between a and b, in either order of the two |
| `SqlText.TokensOfText` | src/parser.c:104-172 | text made of lexemes that stay apart (words, quoted texts of both kinds, symbols, runs of blanks, comments) is tokenized into exactly their tokens |
| `SqlText.CommentLast` | src/parser.c:104-172 | a comment at the end of the text, with or without a line end, adds no token |
| `SqlText.OpenQuote` | src/parser.c:118-128 | a quote that is not closed makes one token of the rest of the text |
| `SqlText.OneToken` | src/parser.c:156-166 | the documented names, decimals, negative numbers and dates are one token each |
| `SqlText.WordCharsAre` | src/parser.c:156-166 | the characters words are made of, and blanks |
| `SqlGrammar.WrittenIsParsed` | src/parser.c:280-632 | a grammar of the statements: keywords in any case, conditions with BETWEEN, ASC, DESC or nothing, LIMIT, a semicolon or none; parse_sql finds for each way of writing one what it means, ORDER BY without a direction being ascending |
| `SqlGrammar.TextIsParsed` | src/parser.c:104-632 | and so of a text, with any blanks and comments between the tokens |
| `SqlFields.ParsedFits` | src/parser.c:280-632 | for every text whatever: each field is shorter than its buffer, there is exactly one link, AND or OR, between each condition and the next, and fields of other statements stay empty |
| `SqlFields.FitExactly` | src/parser.c:341-358 | a text copied to a buffer is its longest beginning that fits with the end mark |
| `SqlIncomplete.NoStatement` | src/parser.c:607-632 | NULL exactly for a text without tokens, and an unknown statement where the first token opens none |
| `SqlIncomplete.CreateShort` | src/parser.c:406-444 | CREATE without TABLE, name or parenthesis: what was read before |
| `SqlIncomplete.CreateUnclosed` | src/parser.c:406-444 | definitions without a closing parenthesis are kept |
| `SqlIncomplete.LastDefCut` | src/parser.c:406-444 | a definition of one token at the end is dropped |
| `SqlIncomplete.InsertShort` | src/parser.c:462-476 | INSERT without INTO, name or parenthesis: what was read before |
| `SqlIncomplete.InsertWithoutValues` | src/parser.c:462-476 | INSERT without VALUES keeps table and columns |
| `SqlIncomplete.InsertUnclosed` | src/parser.c:280-294 | a value list without a closing parenthesis is kept |
| `SqlIncomplete.SelectWithoutFrom` | src/parser.c:483-556 | SELECT without FROM keeps its columns and nothing else |
| `SqlIncomplete.SelectFromNothing` | src/parser.c:483-556 | FROM at the end names no table |
| `SqlIncomplete.OrderWithoutBy` | src/parser.c:541-549 | ORDER BY may lack its BY |
| `SqlIncomplete.DeleteShort` | src/parser.c:559-565 | DELETE without FROM, or with nothing behind it, has no table |
| `SqlIncomplete.UpdateShort` | src/parser.c:568-598 | UPDATE without SET keeps its table |
| `SqlIncomplete.LastSetCut` | src/parser.c:568-598 | a SET list ends with fewer than three tokens left, which are dropped |
| `SqlRoundTrip.RoundTrip` | src/sql_format.c:67-159 | parsing the printed text of a CREATE, INSERT, SELECT, DELETE or UPDATE, for any number of columns, values, SET pairs and linked conditions, gives the statement back exactly if no condition but the last is a BETWEEN, and that only with an empty upper bound, no ORDER BY and no LIMIT: emit_where leaves the bound out |
| `SqlRoundTrip.UpperBoundLost` | src/sql_format.c:67-75 | for instance DELETE FROM t WHERE n BETWEEN 1 AND high comes back exactly if high is empty |
| `SqlRoundTrip.AscendingUnsaid` | src/parser.c:541-549 | the printed SELECT with its ASC left out parses to the same statement |
| `SqlRoundTrip.CommentBefore` | src/parser.c:104-172 | a comment line before any text changes nothing |
| `SqlRoundTrip.CommentBehind` | src/parser.c:104-172 | nor does a comment behind a statement, with or without a line end |
| `SqlRoundTrip.PrintInjective` | src/sql_format.c:80-159 | different statements that come back print differently |
| `SqlRoundTrip.FormatIdempotent` | src/sql_format.c:80-159 | printing what was parsed from printed text changes nothing |
| `SqlRoundTrip.ValueSurvivesExactly` | src/sql_format.c:35-48 | a value comes back from its printed form exactly when it has no quote character and, if it is printed bare, only word characters |
| `SqlRoundTrip.SharedLinkPrinted` | src/sql_format.c:50-62 | a statement with only the shared link prints as the one that has it between all conditions, or AND if it has none |
| `SqlFormat.PrintIsFormat` | src/sql_format.c:35-159 | the printed text, token by token, is what the format strings of print_format, emit_where and emit_value say, for every statement |
| `SqlRoundTrip.StatementBack` | src/sql_format.c:80-159 | the text of a printed statement is a way of writing it in that grammar, as lexemes that stay apart |
| `SqlGrammar.IdentListBack` | src/parser.c:280-294 | parse_ident_list reads a written list and leaves the rest |
| `SqlGrammar.DefsRead` | src/parser.c:406-444 | the column loop of parse_create reads written definitions and leaves the rest |
| `SqlGrammar.ColumnsBack` | src/parser.c:483-531 | the column loop of parse_select reads written columns and calls up to FROM and leaves the rest |
| `SqlGrammar.SetsBack` | src/parser.c:568-598 | the SET loop of parse_update reads written assignments and leaves the rest |
| `SqlGrammar.ConditionsBack` | src/parser.c:319-396 | the loop of parse_where reads written conditions, column operator value or column BETWEEN low AND high, and the links in any case between them, in order, and leaves the rest |
| `SqlGrammar.WhereBack` | src/parser.c:319-396 | parse_where keeps those conditions and links, and the link they all share |
| `SqlGrammar.DanglingLink` | src/parser.c:371-378 | an AND or OR that no whole condition follows is dropped, with what stands behind it |
| `SqlProgram.Tokenize` | src/parser.c:104-172 | the pointer loop yields exactly the tokens of the text |
| `SqlProgram.ParseText` | src/parser.c:607-632 | parse_sql on the text: exactly the parse the round trip is about, None for an empty text |
| `SqlProgram.ParseIdentList` | src/parser.c:280-294 | reads exactly the list and moves past exactly its tokens |
| `SqlProgram.ParseConditions` | src/parser.c:319-396 | reads exactly the conditions and links and moves past exactly their tokens |
| `SqlProgram.ParseWhere` | src/parser.c:319-396 | fills exactly the WHERE fields, dropping a link that no condition follows |
| `SqlProgram.ParseCreate` | src/parser.c:406-444 | the CREATE statement of the tokens ahead |
| `SqlProgram.ParseInsert` | src/parser.c:462-476 | the INSERT statement of the tokens ahead |
| `SqlProgram.ParseSelect` | src/parser.c:483-556 | the SELECT statement of the tokens ahead, with its optional clauses |
| `SqlProgram.ParseDelete` | src/parser.c:559-565 | the DELETE statement of the tokens ahead |
| `SqlProgram.ParseUpdate` | src/parser.c:568-598 | the UPDATE statement of the tokens ahead |
| `SqlProgram.EmitValue` | src/sql_format.c:45-48 | appends the value bare or in quotes, as needs_quote decides |
| `SqlProgram.EmitWhere` | src/sql_format.c:67-75 | appends the WHERE text the round trip parses back |
| `SqlProgram.PrintFormat` | src/sql_format.c:80-159 | appends exactly the statement text the round trip parses back, or the comment line for an unknown statement |

## Left out

Entire parts:

- Sockets, HTTP and JSON text, static files, the REPL, benchmarks, `print_ast` and `print_json`: input and output.
- Real files: a table is a sequence of rows, or a character sequence in `Csv.dfy`. Path, schema and append-file
  caches, temporary files and the stat calls are not modelled; a file found empty is a parameter, and false in
  runs of statements.
- The `.bin` reader of the index paths, which INSERT does not keep up to date.
- Aggregates, timing statistics and the lock wait counter.
- Allocation and `pthread_create` failure, NULL arguments that no caller passes, wrap-around of counters.
- `mode=single`, which takes only its own mutex.
- Several tables sharing the index registry: `rebuild_index` empties it for all while the others stay marked as
  rebuilt, so nothing is claimed across tables. The limit on tables with cached counters goes with it.
- CREATE TABLE in storage, and the checks of INSERT, DELETE and UPDATE input before the modelled part (column
  resolution, duplicate SET columns, literal validation).
- Texts as long as their C field: every field counts as zeroed before `strncpy`, which leaves no end mark then. `calloc`
  zeroes the statement, but `realloc` does not zero conditions and SET pairs (src/parser.c:337, 581).

Members stated weaker than one might ask:

- SqlRoundTrip.RoundTrip: for statements in the form the parser itself produces, with names of letters, digits and
  `_` that are no keywords, values that survive printing, and lengths below the field sizes.
- SqlGrammar.WrittenIsParsed: for statements with all their required parts; the most common incomplete ones are in
  `SqlIncomplete`, and of the others it is known that the loops compute the functions on tokens and `SqlFields.ParsedFits`.
- SqlAnswers.ExecuteText: for SELECT; INSERT, DELETE and UPDATE start from their parsed form, in `EngineRuns`.
- SqlRoundTrip.ValueSurvivesExactly: exact for a value on its own; inside a value list `)` is excluded besides.
- ThreadPoolProofs.GracefulFinishesAll: the timeout is not modelled as time; it is the case where the wait loop
  ends otherwise, of which nothing is claimed.
- ThreadPoolProofs.ResizeReaches: counts members at the end of the critical section, not threads after the joins.
- ThreadPoolClass.WorkerPool.Submit: the two setters for the queue limit and for closing submission are steps of
  the state machine but not methods of the class.
- EngineLockProofs.NoDeadlock: waiting is for the two read-write locks only; the mutex inside the registry is one
  atomic step.
- RouterCache.HitsAreCurrent: for lowercase words; other texts are answered by whatever the engine reads them as.
- Router.Dictionary.DictRequest: buffers for escaped text and keys are taken as long enough, as they are for any
  parameter that fits its own buffer; the cache is made with the object instead of at the first request.
- Engine.SortInts: an insertion sort stands in for `qsort`, of which only the sorted arrangement is used.
- StorageIndex.TableStore.Insert: ids and positions are unbounded; the truncation of a given id to `int` and the
  refusal of one past the range of `long` are not modelled.
- ThreadPoolProofs.StepKeeps: joins of a resize and of a shutdown may interleave, but two threads that join the same
  worker are not modelled, because that is undefined in POSIX.
- DictCacheThreads.WriterSeesRecencyList: with hits of one key under way at the same time any of their stamps may
  be the one that stays; `DictCacheThreads.OrderedByLastUseExactly` says when it is the last.
- RouterCache.IdEntryFate: the index is taken to be that of the rows; when it is, is `EngineRuns.IndexKeptExactly`.
- EngineRuns.ExecuteStatements: on one table; nothing is said of the answer to BETWEEN on ids that are not distinct
  and positive, nor of a trie whose column is not VARCHAR.
- Engine.ExecuteSelect: one-way where an id or word is repeated; there `QueryAgreement` says exactly what is selected.

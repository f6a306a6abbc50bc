# A Dafny model of the snf libraries

This project models, in Dafny 4.11, the parts of the repository with the most state and the
most arithmetic, and proves what they promise for all inputs, all runs and all
interleavings.  `dafny verify dfyconfig.toml` checks everything.

## What is modelled

**librdb, the embedded key/value store.**  The layers are stacked, and each proved layer
carries the next.

- `KeyOrder`, `AvlTree`, `KeyRecords`: the AVL tree inside a key page.  `AvlTree` is the
  tree as a value; `KeyRecords` is the array of key records with slot links, stored heights
  and a free-slot scan, updated in place, and every method is proved to do to the array what
  the tree function does to the tree.  The length-then-bytes key order is proved to be the
  order of natural numbers.
- `AvlBalance`, `BareTree`, `PageOps`, `PageRuns`: when stored heights are true, what put and
  remove do to the balance, what every run of operations on a page keeps, and named runs that
  reach the failing cases.
- `KeyPages`, `KeyChains`, `KeyIndex`: key pages, the doubly linked chains of pages per hash
  bucket, the hash table with its resident prefix of each chain, and the walk over resident
  and on-disk pages.  `PageList` is the linked list of resident nodes on the heap.
- `ValueStore`, `FreeDiskPages`, `PageMgr`: the value file, the free-page stack with its
  high-water mark at the bottom and its mirror file, and the in-memory page pool.
- `Rdb`, `RdbRuns`: open, get, set, remove, close and rebuild, against one abstract finite
  map, and whole runs of them.
- `BucketShapes`, `Layouts`, `RdbFailures`: the database as a value, its buckets as trees by
  rank alone, loaded and on disk.  Every request is a function on it, so what a run does to
  the trees, and whether it meets the slot check below, depends on the requests and the sizes
  only; named runs show where it fails.
- `BucketLocks`, `LockGrants`: the lending of pooled read-write locks to hash-table entries, as
  a machine that interleaves the atomic steps of any number of sessions: who is excluded, who
  is let in, and when nothing can move.
- `Prime`: the hash-table sizes.

**libcom.**  `SyncQueue` is `sync_queue` and the worker loop of `thread_pool`, interleaved
step by step, with spurious wake-ups; `SyncHistory` tells from the moves of a run alone what
is put, taken, called and run.  `Calendar` is the UTC arithmetic and the date formats.

**libjson.**  `Utf` is the escape codec, `JsonValue` the values and their printed form,
`JsonLexer` and `JsonParser` the grammar as functions, `JsonCode` the lexer object, the
parser and printer loops tied to those functions, `JsonRoundTrip` the round trip.
`JsonGrammar` is the grammar of RFC 8259 as a relation with literals of its own, read strictly
or as laxly as the code reads it, and `Escapes` the same for the characters of a string;
`JsonAccepts` and `JsonExact` prove that the parser takes exactly the lax texts, `JsonPrinted`
and `JsonStrict` what the printer and the parser have to do with the strict ones.

**http.**  `Router` is the route trie, `RouterAgain` what a second registration of a path
does, `UriPath` the path object and `Rfc3986` the reference algorithm of sections 5.2.3 and
5.2.4 of RFC 3986; `PathElements` is the cutting of a path at its slashes.

## Where the code and its documentation differ

The model follows the code.

- `balanceTree` ignores a node whose taller child has balance factor 0
  (librdb/src/keyrec.cpp:215-229): put keeps AVL balance, remove keeps it if and only if no
  node on its way up shrinks on one side while the other side was the taller one with factor
  0 (`AvlBalance.RemoveKeepsBalance`).  `PageRuns.BalanceLost` is a run that loses it.
- `kr_height` is a `char`: a record stores its true height if and only if that is at most 127
  (`AvlBalance.StoredIsHeight`).  A run of operations can make a stored height wrap exactly on
  pages of 129 records and more (`PageRuns.WrapsExactly`, with the run of
  `PageRuns.HeightWraps`, after which the root stores -128).  Contents, order and slots do
  not depend on it: a rotation would lack its pivot only where two subtrees store -1, and
  that takes more records than a page can number (`AvlBalance.PivotsExist`), so every result
  about the map holds on every page size.
- `KeyRecords::remove` reports the predecessor's slot when the node has two children, and
  librdb/src/rdb.cpp:893 asserts that it is the slot that was found; the assertion macro
  aborts (liblog/include/logmgr.h:81-87).  `Rdb.Rdb.Remove` goes on and returns whether the
  slots agree: they do if and only if the record does not have two children in the page that
  the call meets, the resident one if there is one.  `RdbRuns.Serve` returns whether the check
  held all through a run, which is a function of the run (`RdbRuns.Survives`), and
  `RdbFailures.CheckCanFail` makes it fail with three sets and a removal.
- A put of a new key on a full page returns -1, but it still rebalances the search path on
  the way back.  `KeyRecords.FullPutUnchanged` says exactly when the page stays as it was, and
  `PageRuns.RefusedPutChanges` is a run at whose end it does not.
- `FreeDiskPageMgr::init` returns the end-of-file code after reading a whole file
  (librdb/src/fdpmgr.cpp:102-126), so `populateFreePages` always scans the value file
  (librdb/src/rdb.cpp:86-118).  `KeyFile::writeFlags` writes four bytes and so clears the
  on-disk count of a deleted page (librdb/src/dbfiles.cpp:218-223).
- A walk that deletes may rotate loaded pages that it passes and does not write back; resident
  pages therefore agree with the disk in contents and links, not byte for byte.  A passed page
  stays as it was if and only if its search path is settled
  (`KeyRecords.MissedRemoveUnchanged`), and over a run a request leaves loaded pages and file
  in step, tree by tree, if and only if it is not a removal that passes an unsettled page
  (`RdbRuns.StepInStep`).  `RdbFailures.OutOfStep` is a run on the smallest key page that ends
  out of step; `RdbRuns.ReopenInStep` says what repairs it.
- The table above `NextPrime` lists 13 for 12; the answer is 17 (`Prime.TableRowNotMet`).
  `IsPrime` accepts 1.
- A JSON string is unescaped while it is read, again when it is stored in the token, and a
  key a third time in `object::add`; a bare 0 and an empty container are refused.
  `JsonRoundTrip.RoundTrip` is an if-and-only-if.  A bounded read of a keyword that ends the
  input reports the end of input, as common stream libraries do, and an outermost container
  that ends with the input behind its bracket or a comma is taken as complete; vertical tabs and
  form feeds pass as white space, raw controls as characters, and a surrogate escape is checked
  by half.  `JsonExact.ParseExactly` says exactly which texts are taken, and as what.
- The printer writes control characters without a short escape as they are:
  `JsonPrinted.PrintedExactly` says exactly when its text is one of RFC 8259.
- `HashTable` blocks on a bucket's lock while it holds the table mutex that every unlock needs
  (librdb/src/hashtable.cpp:62-164).  `LockGrants.StuckExactly` says exactly when nothing can
  move, `LockGrants.CanBlock` is a run of two sessions that gets there, and
  `LockGrants.BlockedStays` that nothing leads out.
- `router::find` compares a pattern segment by its regular expression and not by its
  `{...}` text.  A path registered again therefore replaces its handler if and only if every
  element met or made a segment stored under the element's own text; otherwise the new
  handler is never reached (`RouterAgain.RegisteredTwice`, with `RouterAgain.FirstWins` as an
  instance).
- `uri_path::merge` drops the last base segment even when the base ends in a slash;
  `Rfc3986.MergeAgrees` says exactly when that differs from the standard.
- `recalculate` adds nothing for years before 1970; `Calendar.RecalculatedIsCivil` is an
  if-and-only-if.

## Model

| member | source | states |
|---|---|---|
| `KeyOrder.KeyCmpIsRankOrder` | librdb/src/keyrec.cpp:411-418 | the length-then-bytes comparison is the order of an injective numbering of all keys |
| `AvlTree.PutRefines` | librdb/src/keyrec.cpp:245-268 | put on an ordered tree keeps the order and is a map update, or nothing when a new key finds no slot |
| `AvlTree.RemoveRefines` | librdb/src/keyrec.cpp:372-406 | remove keeps the order and is a map removal |
| `AvlTree.PutSlots` | librdb/src/keyrec.cpp:245-268 | put keeps each slot used once and adds exactly the free slot |
| `AvlTree.RemoveSlots` | librdb/src/keyrec.cpp:344-406 | remove frees exactly one slot, the one it reports |
| `AvlTree.FreedSlotIsSearchSlot` | librdb/src/keyrec.cpp:372-406 | the reported slot is the one a search finds if and only if the node does not have two children |
| `AvlBalance.PutKeepsBalance` | librdb/src/keyrec.cpp:211-268 | put keeps AVL balance and raises the height by at most one |
| `AvlBalance.StoredIsHeight` | librdb/src/keyrec.cpp:120-134 | a record stores its true height if and only if that is at most 127 |
| `AvlBalance.HeightsTrueExactly` | librdb/src/keyrec.cpp:120-134 | all records of a tree store their true heights if and only if the tree is at most 127 high |
| `AvlBalance.StoredIsLarge` | librdb/src/keyrec.cpp:120-134 | a record that stores a negative height has many records below it, at least 16511 for -1 |
| `AvlBalance.FewestAttained` | librdb/src/keyrec.cpp:120-134 | and that many are enough |
| `AvlBalance.PivotsExist` | librdb/src/keyrec.cpp:183-229 | the inner child of every double rotation exists on a page of any size, whatever heights are stored |
| `AvlBalance.BalanceIsByHeight` | librdb/src/keyrec.cpp:211-232 | up to height 127 the decisions by stored heights are those by true heights |
| `AvlBalance.RemoveKeepsBalance` | librdb/src/keyrec.cpp:211-232 | a removal from a balanced tree keeps balance if and only if no node on its way up is stuck at the missing case of the rebalancing; its exact height, and at most one node left outside -1..1, within -2..2 |
| `AvlBalance.RemoveWithoutKey` | librdb/src/keyrec.cpp:372-406 | a removal that does not find its key leaves the tree alone if and only if the search path needs no rotation |
| `AvlBalance.PutMakesNoStick` | librdb/src/keyrec.cpp:211-268 | a new key never makes three or more nodes a single line |
| `AvlBalance.NothingMakesNoStick` | librdb/src/keyrec.cpp:211-268 | neither does an operation that changes no key |
| `AvlBalance.RemoveLosesBalance` | librdb/src/keyrec.cpp:211-232 | a left leaf goes beside a right child with two leaves, and balance is lost |
| `AvlBalance.PutWithoutRoom` | librdb/src/keyrec.cpp:245-268 | a put that finds no slot leaves the tree alone if and only if the search path needs no rotation |
| `AvlBalance.BalancedIsSettled` | librdb/src/keyrec.cpp:211-232 | in a balanced tree no search path needs a rotation |
| `AvlBalance.BalancedIsLarge` | librdb/src/keyrec.cpp:96-134 | a balanced tree of height h has at least Fib(h+2)-1 nodes |
| `AvlBalance.BalancedHeightBound` | librdb/include/dbstruct.h:37-61 | with short slot numbers a balanced tree is at most 21 high |
| `AvlTree.SizeIsKeyCount` | librdb/src/keyrec.cpp:425-438 | an ordered tree has as many nodes as keys |
| `KeyRecords.ShapeUnique` | librdb/include/dbstruct.h:37-61 | the records of a page spell one tree only |
| `KeyRecords.FullPage` | librdb/src/keyrec.cpp:14-28 | no slot is free exactly when the count equals the capacity |
| `KeyRecords.FullPutUnchanged` | librdb/src/keyrec.cpp:245-268 | a new key on a full page leaves every record and the root alone if and only if its search path is settled |
| `KeyRecords.MissedRemoveUnchanged` | librdb/src/keyrec.cpp:372-406 | a removal of a key that is not there leaves every record and the root alone if and only if its search path is settled |
| `KeyRecords.FreeCountIsComplement` | librdb/src/keyrec.cpp:425-438 | free records and nodes of the tree add up to the capacity |
| `KeyRecords.KeyRecords.GetFree` | librdb/src/keyrec.cpp:14-28 | the first unused slot, -1 only when all are in use |
| `KeyRecords.KeyRecords.GetFreeCount` | librdb/src/keyrec.cpp:425-438 | the result and the page's count add up to the capacity |
| `KeyRecords.KeyRecords.GetKeyRecord` | librdb/src/keyrec.cpp:42-66 | fills the first free record and counts it |
| `KeyRecords.KeyRecords.FreeKeyRecord` | librdb/src/keyrec.cpp:77-86 | clears one record and uncounts it |
| `KeyRecords.KeyRecords.StoredBalanceFactor` | librdb/src/keyrec.cpp:96-109 | the difference of the heights that the children store |
| `KeyRecords.KeyRecords.UpdateHeight` | librdb/src/keyrec.cpp:120-134 | the stored height becomes one more than the greater stored height below, cut to a char |
| `KeyRecords.KeyRecords.RotateLeft` | librdb/src/keyrec.cpp:143-154 | relinking three records is the left rotation, stored heights brought up to date, all else unchanged |
| `KeyRecords.KeyRecords.RotateRight` | librdb/src/keyrec.cpp:163-174 | relinking three records is the right rotation |
| `KeyRecords.KeyRecords.RotateLeftRight` | librdb/src/keyrec.cpp:183-188 | the double rotation |
| `KeyRecords.KeyRecords.RotateRightLeft` | librdb/src/keyrec.cpp:197-202 | the other double rotation |
| `KeyRecords.KeyRecords.BalanceTree` | librdb/src/keyrec.cpp:211-232 | the records below become the balanced tree of `AvlTree.Balance` |
| `KeyRecords.KeyRecords.PutBelow` | librdb/src/keyrec.cpp:245-268 | the recursive put in place does to the records what the tree function does |
| `KeyRecords.KeyRecords.MaxKey` | librdb/src/keyrec.cpp:294-302 | the record with the greatest key below a node |
| `KeyRecords.KeyRecords.RemoveMaxBelow` | librdb/src/keyrec.cpp:344-360 | takes the greatest key's record out of the tree |
| `KeyRecords.KeyRecords.RemoveBelow` | librdb/src/keyrec.cpp:372-406 | the recursive remove in place |
| `KeyRecords.KeyRecords.Get` | librdb/src/keyrec.cpp:449-468 | finds the slot of exactly the keys that are there, in at most height steps |
| `KeyRecords.KeyRecords.Put` | librdb/src/keyrec.cpp:481-487 | a map update of the page, -1 exactly for a new key on a full page; count, order and balance kept, whatever heights are stored |
| `KeyRecords.KeyRecords.Remove` | librdb/src/keyrec.cpp:497-503 | a map removal of the page with the reported slot characterised, balance kept exactly when the removal is not stuck, and an absent key harmless exactly on a settled path |
| `PageOps.Run` | librdb/src/keyrec.cpp:481-503 | the page object takes any sequence of puts and removes as the fold of the tree functions does |
| `PageOps.RunLow` | librdb/src/keyrec.cpp:211-268 | after every run a page of three records or more is less high than it has records |
| `PageOps.SmallPagesNeverWrap` | librdb/src/keyrec.cpp:120-134 | after every run on at most 128 records every stored height is true |
| `PageRuns.HeightWraps` | librdb/src/keyrec.cpp:120-134 | a named run of sets and removals, on any page of 129 records or more, after which the root is 128 high and stores -128 |
| `PageRuns.WrapsExactly` | librdb/src/keyrec.cpp:120-134 | some run makes a stored height wrap if and only if the page has at least 129 records |
| `PageRuns.RunOnPage` | librdb/src/keyrec.cpp:245-406 | a run by ranks leads the page to the tree that the ranks determine |
| `PageRuns.BalanceLost` | librdb/src/keyrec.cpp:211-232 | five named sets lead to a balanced page and the removal after them to one that is not |
| `PageRuns.RefusedPutChanges` | librdb/src/keyrec.cpp:245-268 | after a named run that fills a page of fifteen records the next key is refused and still changes a record or the root |
| `BareTree.StripPut` | librdb/src/keyrec.cpp:245-268 | the shape after a put depends on the ranks of the keys alone |
| `BareTree.StripRemove` | librdb/src/keyrec.cpp:372-406 | so does the shape after a remove |
| `KeyPages.SmallPagesTrue` | librdb/include/dbstruct.h:37-61 | on pages of at most 127 records every stored height is true |
| `KeyPages.BalancedPagesTrue` | librdb/include/dbstruct.h:37-61 | so it is on balanced pages of any size, which are at most 21 high |
| `KeyPages.CountIsKeys` | librdb/include/dbstruct.h:63-99 | the page's count is its number of keys, and the page is empty exactly at 0 |
| `KeyPages.PutInPage` | librdb/src/rdb.cpp:143-302 | put on a loaded page, header kept |
| `KeyPages.RemoveInPage` | librdb/src/rdb.cpp:143-302 | remove on a loaded page, header kept, slot and balance characterised |
| `FreeDiskPages.GetSafe` | librdb/src/fdpmgr.cpp:143-175 | get hands out an aligned page that is not allocated and allocates exactly it |
| `FreeDiskPages.FreeSafe` | librdb/src/fdpmgr.cpp:186-205 | free of an allocated page takes exactly it back |
| `FreeDiskPages.FreeDiskPageMgr.Init` | librdb/src/fdpmgr.cpp:84-131 | reading the mirror rebuilds the stack bottom to top |
| `FreeDiskPages.FreeDiskPageMgr.Get` | librdb/src/fdpmgr.cpp:143-175 | never an allocated page; stack and mirror stay in step |
| `FreeDiskPages.FreeDiskPageMgr.Free` | librdb/src/fdpmgr.cpp:186-205 | pushes the page, on the stack and in the mirror |
| `FreeDiskPages.FreeDiskPageMgr.Reset` | librdb/src/fdpmgr.cpp:213-234 | empties the stack and the mirror |
| `FreeDiskPages.Reload` | librdb/src/fdpmgr.cpp:84-131 | a manager opened on the mirror of another has the same stack |
| `PageMgr.GetNew` | librdb/src/pagemgr.cpp:67-89 | a never-used page is aligned, inside the pool and not out |
| `PageMgr.GetFreed` | librdb/src/pagemgr.cpp:67-89 | a returned page comes off the stack and was not out |
| `PageMgr.FreeGood` | librdb/src/pagemgr.cpp:91-110 | free keeps the ledger of the pool |
| `PageMgr.PageMgr.Get` | librdb/src/pagemgr.cpp:67-89 | null exactly when all pages are out, else an aligned page of the pool that was not out, never the partial page at its end |
| `PageMgr.PageMgr.Free` | librdb/src/pagemgr.cpp:91-110 | takes an outstanding page back |
| `KeyChains.ComputeHash` | librdb/include/hashtable.h:22-31 | the loop computes the hash, a bucket number, computed modulo 2^64 with signed characters |
| `KeyChains.HashIsPolynomial` | librdb/include/hashtable.h:22-31 | the hash is the sum of the signed characters times falling powers of 65599, modulo 2^64 and then modulo the size |
| `KeyChains.ReplacePage` | librdb/src/rdb.cpp:143-302 | changing one page of a chain keeps links, buckets and disjointness |
| `KeyChains.AppendPage` | librdb/src/rdb.cpp:311-369 | linking a new last page keeps both link directions |
| `KeyChains.AppendedFind` | librdb/src/rdb.cpp:311-369 | and adds exactly the keys of the new page |
| `KeyChains.UnlinkPage` | librdb/src/rdb.cpp:895-1001 | taking an empty page out keeps both link directions |
| `KeyChains.UnlinkedFind` | librdb/src/rdb.cpp:895-1001 | and changes no answer |
| `KeyChains.AppendToFile` | librdb/src/rdb.cpp:311-369 | the whole key file keeps its invariant, live pages and free stack included |
| `KeyChains.UnlinkFromFile` | librdb/src/rdb.cpp:895-1001 | the same for a removed page |
| `KeyIndex.HitIsTarget` | librdb/src/rdb.cpp:143-302 | the walk stops at the page that holds the key, or for a set at the first page with room |
| `KeyIndex.TableLoad` | librdb/src/rdb.cpp:143-302 | loading the next page of a chain extends the resident prefix and changes no answer |
| `KeyIndex.LoadedMet` | librdb/src/rdb.cpp:143-302 | and leaves every page that a later call meets byte for byte as it was |
| `KeyIndex.SetShapes` | librdb/src/rdb.cpp:143-302 | a key added to a loaded page, as a change of one bucket of trees |
| `KeyIndex.DelShapes` | librdb/src/rdb.cpp:143-302 | a key removed from a page, with what the passed pages become |
| `KeyIndex.KeyIndex.ScanPage` | librdb/src/rdb.cpp:15-51 | one step of the opening scan: a head or a free page |
| `KeyIndex.KeyIndex.PopulateHashTable` | librdb/src/rdb.cpp:15-51 | the scan of headers and flags gives the chain heads and the complement of the live pages |
| `KeyIndex.KeyIndex.ProcessKeyPages` | librdb/src/rdb.cpp:143-302 | the walk over resident and on-disk pages, for get, set and delete: where it stops, what it does to each page it passes, and that it touches no other |
| `KeyIndex.KeyIndex.Locate` | librdb/src/rdb.cpp:583-670 | finds a key's value offset exactly when it is recorded, however much of the chain is resident; loads pages and changes none |
| `KeyIndex.KeyIndex.Insert` | librdb/src/rdb.cpp:697-817 | records one key and changes no other; the bucket becomes the one that `BucketShapes.PutShape` computes |
| `KeyIndex.KeyIndex.AddNewPage` | librdb/src/rdb.cpp:311-369 | a new page for a bucket without room |
| `KeyIndex.KeyIndex.Delete` | librdb/src/rdb.cpp:827-1001 | forgets one key and changes no other; the bucket becomes the one that `BucketShapes.RemoveShape` computes, and the reported slot is characterised on the page met in the old state |
| `KeyIndex.KeyIndex.RemovePage` | librdb/src/rdb.cpp:895-1001 | unlinks, frees and drops an empty page, loading its successor when needed |
| `PageList.PageList.Add` | librdb/src/hashtable.cpp:211-233 | the node becomes the last of the list, both link directions kept; as an entry, the append of `KeyIndex` |
| `PageList.PageList.Remove` | librdb/src/hashtable.cpp:241-269 | the neighbours close up, the entry's offset follows the first page or becomes -1; as an entry, the removal of `KeyIndex` |
| `PageList.PageList.Forward` | librdb/src/hashtable.cpp:278-287 | following next meets every node once, in order |
| `PageList.PageList.Backward` | librdb/src/hashtable.cpp:211-269 | following prev meets them in the opposite order |
| `BucketShapes.PutAt` | librdb/src/rdb.cpp:143-369 | the computed put changes the first page with room, or adds a page |
| `BucketShapes.RemoveAt` | librdb/src/rdb.cpp:143-302 | the computed removal turns the pages before the holder, rewrites the holder or drops it, and leaves the rest |
| `BucketShapes.RemoveInStep` | librdb/src/rdb.cpp:143-302 | a removal keeps a bucket equal in memory and file if and only if every page it passes has a settled path |
| `ValueStore.WriteNew` | librdb/src/rdb.cpp:697-817 | a value page goes to an offset that was not in use |
| `ValueStore.DeleteAndFree` | librdb/src/rdb.cpp:827-1001 | marking a page deleted and freeing it keeps file and free stack in agreement |
| `ValueStore.ValueStore.PopulateFreePages` | librdb/src/rdb.cpp:62-132 | the scan of the flags gives the free stack of the value file |
| `Rdb.RepresentsUnique` | librdb/src/rdb.cpp:583-670 | the files stand for one map only |
| `Rdb.OffsetsDistinct` | librdb/src/rdb.cpp:697-817 | two keys never share a value page |
| `Rdb.Added` | librdb/src/rdb.cpp:697-817 | writing the value page and then the key is a map update |
| `Rdb.Removed` | librdb/src/rdb.cpp:827-1001 | deleting the key and its value page is a map removal |
| `Rdb.Rdb.Open` | librdb/src/rdb.cpp:484-569 | opening files that hold a map gives a database of that map |
| `Rdb.Rdb.Get` | librdb/src/rdb.cpp:583-670 | the answer of the map, with every error status |
| `Rdb.Rdb.Set` | librdb/src/rdb.cpp:697-817 | a map update, the updater applied to a value that is there; the layout after it is the computed one |
| `Rdb.Rdb.Remove` | librdb/src/rdb.cpp:827-1001 | a map removal; the slot check holds exactly when the record has not two children on the page the call meets; the layout after it is the computed one |
| `Rdb.Rdb.Forget` | librdb/src/rdb.cpp:875-1001 | the part of it that follows the search |
| `Rdb.Reopen` | librdb/src/rdb.cpp:15-132 | the same map, free sets equal to the complement of the live pages, and a layout with nothing loaded |
| `Rdb.Rebuild` | librdb/src/rdb.cpp:1018-1119 | the same map for any new sizes, if and only if every stored value is one that set accepts; the layout is that of adding the values in file order |
| `RdbRuns.Serve` | librdb/src/rdb.cpp:484-1119 | over every run of get, set, updating set, remove, reopen and rebuild on pages of any size the replies are those of a plain map; every state is a sound one, laid out as the requests and the sizes determine; the slot check held throughout exactly when no removal of that layout meets a record with two children |
| `RdbRuns.ServeOne` | librdb/src/rdb.cpp:484-1119 | the same for one request from any state |
| `RdbRuns.RepliesByKey` | librdb/src/rdb.cpp:583-1119 | every reply of a run is the one that the earlier requests for its key determine; a request is refused exactly when a key or value is empty or starts with NUL, or a buffer has no room |
| `RdbRuns.MapByKey` | librdb/src/rdb.cpp:583-1119 | for every key the map holds what the requests that name it have stored |
| `RdbRuns.SetGetRemove` | librdb/src/rdb.cpp:583-1001 | after any run, for all bytes: what is set is got back until it is removed |
| `RdbRuns.StepInStep` | librdb/src/rdb.cpp:143-302 | loaded pages and file in step stay so through a request if and only if it does not remove a key behind a page with an unsettled path to it |
| `RdbRuns.ShowsCurrent` | librdb/src/rdb.cpp:143-302 | in every state of a run the trees store heights that follow from their children, as that needs |
| `RdbRuns.ReopenInStep` | librdb/src/rdb.cpp:484-569 | opening the files again puts them in step |
| `RdbFailures.CheckCanFail` | librdb/src/rdb.cpp:885-893 | three sets in one bucket and the removal of the middle key are a run that fails the slot check, for every page with room for three |
| `RdbFailures.RunInBucket` | librdb/src/rdb.cpp:143-302 | a run on one page does to a database of one bucket what it does to the page |
| `RdbFailures.OutOfStep` | librdb/src/rdb.cpp:143-302 | a named run on the smallest key page, which passes the slot check throughout, ends with a loaded page whose tree is not the one in the file |
| `BucketLocks.StepInv` | librdb/src/hashtable.cpp:62-164 | every atomic step of every session keeps the lock accounting |
| `BucketLocks.WriterExcludes` | librdb/src/rwlock.cpp:71-198 | in every reachable state a writer of a bucket excludes everybody else |
| `BucketLocks.LockAccounting` | librdb/src/rwlock.cpp:250-304 | every lock is lent once or pooled once, pooled locks are free, and outside the mutex an entry has a lock exactly when it is held |
| `BucketLocks.LockIsThere` | librdb/src/hashtable.cpp:62-164 | the assertions on the entry's lock hold and no unlock is skipped |
| `BucketLocks.FewLocks` | librdb/src/rwlock.cpp:279-304 | there are never more locks than sessions |
| `LockGrants.GrantedInRun` | librdb/src/rwlock.cpp:60-198 | in every reachable state a session asking to read is let in exactly when nobody writes, one asking to write exactly when nobody reads or writes |
| `LockGrants.GetsIn` | librdb/src/hashtable.cpp:62-130 | whenever the mutex is free and nobody conflicts, an idle session holds the bucket five moves after its call |
| `LockGrants.GetsOut` | librdb/src/hashtable.cpp:92-164 | and gives it back in five moves |
| `LockGrants.ManyReaders` | librdb/src/rwlock.cpp:60-92 | for every n a run after which n sessions read one bucket |
| `LockGrants.AsAsked` | librdb/src/hashtable.cpp:62-164 | a session waits for, holds and returns the bucket and the mode that it last asked for |
| `LockGrants.StuckExactly` | librdb/src/hashtable.cpp:62-164 | no session can go on if and only if all are idle, or the owner of the mutex blocks on a bucket that is held in conflict and all others are idle or want the mutex |
| `LockGrants.BlockedStays` | librdb/src/hashtable.cpp:62-164 | once blocked, every run keeps it blocked and only adds calls |
| `LockGrants.CanBlock` | librdb/src/hashtable.cpp:62-164 | a reader, a writer that waits for it and the reader leaving are a run that blocks the table |
| `Prime.FloorSqrt` | librdb/src/prime.cpp:5-29 | the floor of the square root |
| `Prime.PrimeAbove` | librdb/src/prime.cpp:93-115 | Euclid: the search for a prime ends |
| `Prime.IsPrime` | librdb/src/prime.cpp:34-82 | exactly the primes from 2 on, and what it accepts below |
| `Prime.NextPrime` | librdb/src/prime.cpp:93-115 | the first prime from n, or from n+2 when 6 divides n and n+1 is prime |
| `Prime.TableRowNotMet` | librdb/src/prime.cpp:84-92 | 13 is the first prime from 12, and the first prime from where the search for 12 starts is 17 |
| `SyncQueue.StepInv` | libcom/include/thrdpool.h:60-115 | every step of every thread keeps the queue's invariant |
| `SyncQueue.QueueSafety` | libcom/include/thrdpool.h:60-115 | for every interleaving: delivered is a prefix of accepted, nothing is lost, the waiting count is exact, no wake-up is lost, nobody sleeps on an invalid queue |
| `SyncHistory.FirstInFirstOut` | libcom/include/thrdpool.h:60-115 | for every interleaving: what gets returned, in order, is a prefix of what puts brought before the queue was closed, told from the moves alone; while it is open the rest waits in it |
| `SyncHistory.AcceptedIsPut` | libcom/include/thrdpool.h:60-67 | the accepted elements are those of the puts that entered while nothing had closed the queue, in the order of the run |
| `SyncHistory.DeliveredIsTaken` | libcom/include/thrdpool.h:84-100 | the delivered elements are those that gets returned |
| `SyncHistory.CallsArePerformed` | libcom/include/thrdpool.h:60-202 | a client carries out under the lock what it calls, once each and in order |
| `SyncHistory.JobsAreTaken` | libcom/include/thrdpool.h:136-142 | a worker runs every job it takes, once each and in order |
| `SyncHistory.NoDeadlock` | libcom/include/thrdpool.h:60-202 | when no thread can move the lock is free and every thread is outside the queue, or sleeps on it while it is open and empty, or joins workers that have not all exited |
| `SyncHistory.WorkersStay` | libcom/include/thrdpool.h:136-142 | a worker leaves its loop only once stop has been called |
| `SyncHistory.StopReturnsLast` | libcom/include/thrdpool.h:190-202 | when stop has returned every worker has left its loop for good |
| `SyncQueue.NothingAfterInvalidate` | libcom/include/thrdpool.h:106-115 | nothing is accepted or delivered once the queue is invalid |
| `SyncQueue.DeliveredIsReturned` | libcom/include/thrdpool.h:84-100 | get returns an element exactly when it is taken off the front |
| `SyncQueue.OnlyTakingDelivers` | libcom/include/thrdpool.h:60-115 | no other step delivers |
| `SyncQueue.SectionEnds` | libcom/include/thrdpool.h:60-115 | the owner of the mutex can always step and releases it after a bounded number of steps |
| `SyncQueue.WorkersFinish` | libcom/include/thrdpool.h:136-142 | after stop every worker takes at most eight more steps |
| `SyncQueue.NoWorkerStuck` | libcom/include/thrdpool.h:190-202 | and none of them is blocked for good |
| `SyncQueue.NoWorkLeft` | libcom/include/thrdpool.h:190-202 | with no steps left every worker has exited, so the joins return |
| `Calendar.DateTime.Recalculate` | libcom/src/timeutil.cpp:204-260 | the loops arrive at the closed-form count of seconds |
| `Calendar.RecalculatedIsCivil` | libcom/src/timeutil.cpp:236-254 | the epoch is the civil one if and only if the year is at least 1970 |
| `Calendar.YearLength` | libcom/include/timeutil.h:78-100 | the closed form grows by the length of each year |
| `Calendar.MonthLength` | libcom/include/timeutil.h:90-96 | and by the length of each month |
| `Calendar.EpochGrows` | libcom/src/timeutil.cpp:204-260 | the epoch orders dates and times exactly as the calendar does |
| `Calendar.CommonRoundTrip` | libcom/src/timeutil.cpp:99-291 | the common format reads back as printed |
| `Calendar.ImfRoundTrip` | libcom/src/timeutil.cpp:99-291 | so does the Internet message format |
| `Calendar.EpochRoundTrip` | libcom/src/timeutil.cpp:99-291 | both restore the epoch, whatever the clock shows |
| `Calendar.Get` | libcom/src/timeutil.cpp:99-202 | reads exactly the texts of the format and recalculates |
| `Calendar.CommonExactly` | libcom/src/timeutil.cpp:162-196 | exactly the texts of the common format are read, position by position, and as what |
| `Calendar.ImfExactly` | libcom/src/timeutil.cpp:105-161 | the same for the Internet message format |
| `Calendar.StoiExactly` | libcom/src/timeutil.cpp:120-196 | a number field is white space, a sign and digits worth their places; what follows is ignored |
| `Calendar.ExampleDate` | libcom/src/timeutil.cpp:204-291 | the example date of section 5.6.7 of RFC 9110 in both formats and as its epoch |
| `Calendar.NamesByNumber` | libcom/src/timeutil.cpp:99-161 | the number of every month and day name |
| `Utf.PointRoundTrip` | libjson/src/utf.cpp:25-188 | the escape of every code point but a high surrogate reads back as its UTF-8 |
| `Utf.PointOfChar` | libjson/src/utf.cpp:138-188 | a character of RFC 3629 is read as a scalar value that encodes to the same octets |
| `Utf.CharRoundTrip` | libjson/src/utf.cpp:25-188 | escaping a multi-octet character and reading it back is the identity |
| `Utf.EscapeRoundTrip` | libjson/src/misc.cpp:14-105 | unescaping undoes escaping on every valid UTF-8 string |
| `Utf.UnescapeShortens` | libjson/src/misc.cpp:14-56 | unescaping shortens every string with a backslash |
| `Utf.UnescapeFixed` | libjson/src/misc.cpp:14-56 | unescaping leaves a string alone if and only if it has no backslash |
| `Utf.ReadUnit` | libjson/src/utf.cpp:56-87 | the loop over four hexadecimal digits |
| `Utf.EncodeChar` | libjson/src/utf.cpp:138-188 | the loop over the continuation octets |
| `Utf.StringUnescape` | libjson/src/misc.cpp:14-56 | the loop computes the unescaping function |
| `Utf.StringEscape` | libjson/src/misc.cpp:63-105 | the loop computes the escaping function |
| `Escapes.HexValueExactly` | libjson/src/utf.cpp:56-87 | a hexadecimal digit of either case is worth its place among the sixteen |
| `Escapes.UnitOfDigits` | libjson/src/utf.cpp:56-87 | four digits of any case are read by their positions, whatever follows |
| `Escapes.UnitExactly` | libjson/src/utf.cpp:56-87 | exactly which six octets are read as a unit: one octet of the prefix may be wrong |
| `Escapes.PointOfDigits` | libjson/src/utf.cpp:89-136 | an escape of any case gives the UTF-8 of its code point |
| `Escapes.PairOfDigits` | libjson/src/utf.cpp:89-136 | a pair of them that of the code point they make up |
| `Escapes.EncodeExactly` | libjson/src/utf.cpp:25-54 | the octets of a code point are those of the patterns of RFC 3629, surrogates let pass |
| `Escapes.DecodeExactly` | libjson/src/utf.cpp:89-136 | exactly which escapes are read, and as what |
| `Escapes.UnescapeExactly` | libjson/src/misc.cpp:14-56 | exactly which strings are unescaped, and to what, character by character |
| `Escapes.EscapeRefusesExactly` | libjson/src/misc.cpp:63-105 | escaping refuses exactly the strings in which an announced character breaks off before an ASCII octet |
| `Escapes.StrayOctet` | libjson/src/utf.cpp:138-188 | an octet that continues nothing is escaped as a pair of surrogates |
| `JsonLexer.NextInteger` | libjson/src/lexer.cpp:112-206 | a printed integer reads back, a bare 0 is refused |
| `JsonLexer.NextString` | libjson/src/lexer.cpp:208-252 | a printed string reads back unescaped once more |
| `JsonLexer.DigitsRoundTrip` | libjson/src/lexer.cpp:112-206 | decimal digits read back as the number |
| `JsonParser.PrintedParses` | libjson/src/parser.cpp:64-188 | parsing any printed container, pretty or not, at any indent, gives its image and stops right after it |
| `JsonParser.ValueParsed` | libjson/src/parser.cpp:64-167 | the same for every nested value |
| `JsonRoundTrip.ValueFixed` | libjson/src/json.cpp:165-212 | the image is the value itself if and only if the value is clean |
| `JsonRoundTrip.RoundTrip` | libjson/src/json.cpp:615-651 | print then parse is the identity if and only if no container is empty, no integer is 0 and no string or key has a backslash |
| `JsonRoundTrip.InsertRefines` | libjson/src/json.cpp:16-21 | adding a member keeps key order, adds a missing key and never replaces |
| `JsonRoundTrip.ParsedWellFormed` | libjson/src/parser.cpp:64-167 | whatever the text, a parsed object has each key once and in order |
| `JsonRoundTrip.Utf8IsShowable` | libjson/src/json.cpp:615-651 | printing never fails on valid UTF-8 |
| `JsonRoundTrip.LessExactly` | libjson/src/json.cpp:16-21 | the order of keys is lexicographic |
| `JsonAccepts.ScalarExactly` | libjson/src/lexer.cpp:50-252 | exactly which texts are scalar tokens, and of what |
| `JsonAccepts.EndExactly` | libjson/src/lexer.cpp:260-314 | exactly where the end of the input is reported |
| `JsonAccepts.BodyExactly` | libjson/src/lexer.cpp:213-252 | the string loop reads characters of the lax grammar up to the closing quote |
| `JsonExact.ParseExactly` | libjson/src/parser.cpp:64-188 | for every text: it is parsed as v up to rest if and only if v is a container and the lax grammar reads the text so, or the input ends inside v behind its bracket or a comma |
| `JsonPrinted.PrintedExactly` | libjson/src/json.cpp:165-289 | what is printed is a text of the value by RFC 8259 if and only if no string or key inside has a control character without a short escape |
| `JsonPrinted.BreakExactly` | libjson/src/json.cpp:185-289 | the white space between the parts of a container |
| `JsonPrinted.ExampleLayout` | libjson/src/json.cpp:261-289 | an array at an indent, in both forms |
| `JsonStrict.StrictTextParses` | libjson/src/parser.cpp:64-188 | every text of RFC 8259 of a clean object or array is parsed as it, whatever follows |
| `JsonCode.Lexer.Get` | libjson/src/lexer.cpp:260-314 | the lexer object returns the next token and advances past it |
| `JsonCode.Lexer.GetNumber` | libjson/src/lexer.cpp:112-206 | the digit loop |
| `JsonCode.Lexer.GetString` | libjson/src/lexer.cpp:213-252 | the string loop |
| `JsonCode.ParseArray` | libjson/src/parser.cpp:64-106 | the array loop computes the grammar function |
| `JsonCode.ParseObject` | libjson/src/parser.cpp:114-167 | the object loop computes the grammar function |
| `JsonCode.FromString` | libjson/src/parser.cpp:20-188 | the parser as a whole |
| `JsonCode.ArrayStr` | libjson/src/json.cpp:261-289 | the array printing loop |
| `JsonCode.ObjectStr` | libjson/src/json.cpp:185-212 | the object printing loop |
| `JsonCode.ValueStr` | libjson/src/json.cpp:615-651 | the printer as a whole, with its exception |
| `Router.SplitPath` | http/src/server/router.cpp:73-97 | the non-empty slash-free elements of a path |
| `PathElements.SplitJoin` | http/src/server/router.cpp:73-97 | splitting undoes joining |
| `PathElements.SplitAtSlash` | http/src/server/router.cpp:73-97 | every slash cuts: the elements of two texts around a slash are those of both |
| `PathElements.SplitPlain` | http/src/server/router.cpp:73-97 | a text without a slash is one element, or none |
| `Router.Handle` | http/src/server/router.cpp:153-184 | succeeds exactly when some root-to-node path matches, and ends at the first one in child order |
| `Router.AddKeepsLiteralsFirst` | http/src/server/router.cpp:116-151 | literals stay before patterns among all siblings |
| `Router.LiteralPreferred` | http/src/server/router.cpp:153-184 | a literal child that can serve a request is never passed over for a pattern |
| `Router.RouteIsWalk` | http/src/server/router.cpp:153-184 | on literals the backtracking search is a plain walk |
| `Router.AddRefines` | http/src/server/router.cpp:116-151 | what adding a literal route changes: its own answer, and the new nodes on the way |
| `Router.LiteralRoutesAreAMap` | http/src/server/router.cpp:99-184 | over every run of registrations of literal routes the trie is a map from split paths to the last handler |
| `Router.Routes.Register` | http/src/server/router.cpp:116-151 | add, with the exception on a malformed element; literals stay before patterns |
| `Router.WalkDown` | http/src/server/router.cpp:125-134 | the first loop goes down the segments that are there, as far as there are any |
| `Router.Grow` | http/src/server/router.cpp:136-147 | from the top down the second loop adds a segment for each element left, up to a malformed one; hung back up, the result is that of add |
| `Router.Rehang` | http/src/server/router.cpp:125-147 | the changed sibling lists up to the root |
| `RouterAgain.WalksAfter` | http/src/server/router.cpp:99-114 | after a registration its path is found again by name exactly when every element met or made a segment of its own text |
| `RouterAgain.AgainReplaces` | http/src/server/router.cpp:116-151 | then a second registration changes exactly the answers that end at its node |
| `RouterAgain.AgainIgnored` | http/src/server/router.cpp:116-151 | otherwise it changes no answer |
| `RouterAgain.RegisteredTwice` | http/src/server/router.cpp:116-184 | every answer after registering a path twice, for every trie and request |
| `RouterAgain.FirstWins` | http/src/server/router.cpp:116-184 | one pattern registered twice: the first handler answers |
| `RouterAgain.NewRoute` | http/src/server/router.cpp:116-184 | a route with a new first element, in any trie and for every request: a literal is tried before what was there, a pattern after it |
| `RouterAgain.LoneRoute` | http/src/server/router.cpp:116-184 | a route alone answers exactly the requests of its length whose elements are its literals or match its patterns |
| `Router.Routes.Request` | http/src/server/router.cpp:186-210 | the answer of the search for a request path |
| `UriPath.NormalisedOnce` | http/src/common/uri.cpp:532-580 | a normalised absolute path has no dot and no empty segment, and normalising it again changes nothing |
| `UriPath.SplitPathText` | http/src/common/uri.cpp:494-523 | the printed path splits into its segments |
| `UriPath.SegmentsToPath` | http/src/common/uri.cpp:494-523 | the printing loop |
| `UriPath.ReadSegments` | http/src/common/uri.cpp:549-575 | the loop over the segments of a path |
| `UriPath.Path.Set` | http/src/common/uri.cpp:532-580 | all fields after setting a path |
| `UriPath.Path.Merge` | http/src/common/uri.cpp:589-620 | segments, trailing slash and component of the merged path |
| `Rfc3986.RemoveIsFold` | http/src/common/uri.cpp:549-575 | section 5.2.4 of RFC 3986 on an absolute text is the code's treatment of its segments |
| `Rfc3986.DroppedSegment` | http/src/common/uri.cpp:599-612 | dropping a base segment makes no difference exactly when the reference climbs above it |
| `Rfc3986.MergeAgrees` | http/src/common/uri.cpp:589-620 | the merge agrees with sections 5.2.3 and 5.2.4 if and only if the base does not end in a slash or the reference climbs above all of it |

## Left out

- LRU eviction (librdb/src/cache.cpp): no invariant survives a whole run of it; loaded pages stay resident.
- I/O failures and the unwind stack: every disk operation succeeds.
- Fairness of the bucket locks: which of several waiting sessions gets the mutex first is left to the run.
- Threads inside `Rdb`: the operations of `Rdb` are sequential, their exclusion is the business of `BucketLocks`; loading pages under a shared lock is not modelled.
- Key and value length limits: the code does not check them; keys and values are unbounded byte strings, and fixed-size buffers are not modelled.
- RdbRuns.Serve: pages of more than 32767 records, whose slots the two-byte links of a record cannot number.
- Prime.NextPrime: does not model 32-bit overflow, which the code reaches only within a few numbers of the largest int.
- `setHashTableSize` passes the old field instead of its argument to `NextPrime` (librdb/src/rdb.cpp:457-467); the table size is a parameter here.
- removeMin and minKey of `KeyRecords`: nothing calls them.
- Futures and the packaging of jobs in `thread_pool`: a job is one step; what a job submits is another client's put.
- JsonLexer: numbers with a fraction or an exponent end the model with their own outcome, since printing a double is lossy; row and column numbers are not kept.
- Router.Add: the tree is a value, so its loops keep the way down and hang the changed lists back on it, and sharing of nodes is not captured; the stack of path parameters and regular expressions themselves are parameters or left out.
- Uri percent-encoding, queries, authorities and the rest of the URI; paths are taken as decoded.
- Calendar: local time, the clock and the Windows branches.
- HTTP scanner, chunked bodies, sockets, TLS, daemons, logging, configuration: stream plumbing and system calls.

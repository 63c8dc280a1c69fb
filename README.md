# os-memory-simulator: the paging engine in Dafny

This project models the paging engine of os-memory-simulator. The engine
simulates demand-paged virtual memory for several processes that share a
fixed pool of frames. A memory reference `(addr, mode, pid)` is split into a
page number and an offset. Under the Working Set policy, the reference is
first pushed into the history window of its process. It is then looked up in
the inverse page table (IPT). A hit refreshes the frame: a new timestamp and
offset, and the frame becomes dirty on a write. A miss counts as a page fault
and a disk read. The page is then placed in the first free frame or, when
the table is full, in a frame freed by the replacement policy:

- LRU evicts the frame with the oldest timestamp.
- Working Set evicts every frame of the requesting process whose page has
  left the process's working set. The working set is the set of pages in
  the process's last W references. If no frame is stale, the policy evicts
  the process's highest-indexed frame. If the process owns no frame at all,
  the run aborts ("starvation").

An evicted dirty frame costs one disk write.

## Modules

Modules follow the source files:

- `Types` holds the entries of memory/memory_structs.h: a virtual-memory
  entry `(set, pid, addr)`, a main-memory entry
  `(set, modified, offset, latency)` and the `timespec` ordering.
- `Queues` holds the linked queue of queue/queue.c. The queue is a class
  whose node list is a sequence, and specification functions describe its
  sorted insert and the set built from a window.
- `MemoryStructs` holds `struct memory` as the class `Memory`, with
  `mem_init` as its constructor `Init`. Its invariant `Valid` says:
  - the two tables agree slot by slot;
  - `ipt_curr` counts the occupied slots;
  - no reference is resident twice;
  - every page fault was one disk read;
  - every history window holds at most W references, all of its own process.
- `PageRepl` holds page_repl_algorithms/page_repl.c: `lru`,
  `ws_update_history_window`, `find_history_window`, `working_set`,
  `make_set` and `rm_page`.
- `IptManagement` holds memory/ipt_management.c: `ipt_search`, `ipt_fit`,
  `ipt_replace_page` and `set_new_entry`.
- `MemoryEngine` holds `mem_retrieve`: the address split and the request
  pipeline.

Every method that changes the engine is proved against sequence functions
of the old state:
- `Oldest` is the LRU victim.
- `Evicted` and `EvictedFrames` are the tables after the Working Set scan.
- `WsTarget` is the frame `working_set` returns.
- `WsWrites` is the number of disk writes the scan costs.
- `FirstFree` is the slot `ipt_fit` fills.
- `FirstMatch` is the frame `ipt_search` hits.

Lemmas then characterise those functions independently of the code. For
example, `WsVictimByWindow` says which frames the Working Set evicts in
terms of the pages of the history window.

In two places the code does less than its own comments and checks promise,
and the model follows the code:
- The declaration of `make_set` (page_repl_algorithms/page_repl.c:16) calls
  the working set "a set of every distinct page". The comment at
  queue/queue.c:94 says an insert of a page already in the set does
  nothing. But `queue_sorted_insert` never compares a new item with the
  front node (queue/queue.c:88-100). So the first window entry stays in
  front, and a later reference to the same page is inserted a second time.
  `SortedInserted` models this. `SortedInsertedIncreasing` proves the order
  only after the front, and `WorkingSetExample` shows an unsorted set.
  Membership, which is all the eviction scan uses, is that of the distinct
  pages of the window: `WorkingSetMembership`.
- The driver rejects only a window size of 0 (simulator.c:84-85). A window
  of 1 breaks `queue_emplace_last` (see "## Left out"), so the model
  requires 2.

## Model

| member | source | states |
|---|---|---|
| Queues.SameRef | queue/queue.c:118-121 | `compare_equal`: two items are the same reference exactly when pid and page agree, whatever their `set` flags |
| Queues.Queue.constructor | queue/queue.c:8-15 | a new queue is empty, with size 0 |
| Queues.Queue.IsEmpty | queue/queue.c:17-19 | true exactly when the queue holds no item |
| Queues.Queue.IsFull | queue/queue.c:21-23 | true exactly when the queue holds `maxsize` items |
| Queues.Queue.RemoveFirst | queue/queue.c:25-35 | returns the front item; the queue loses its front and its size drops by one |
| Queues.Queue.EmplaceLast | queue/queue.c:48-62 | on a queue of two or more nodes, the front item is dropped and the value is appended; the size is unchanged |
| Queues.Queue.InsertLast | queue/queue.c:64-77 | the value is appended and the size grows by one |
| Queues.Queue.SortedInsert | queue/queue.c:79-115 | the items become `SortedInserted(old items, value)`: the value goes before the first node after the front with a larger page, and nothing is inserted if a node after the front has the same page |
| Queues.Queue.Search | queue/queue.c:118-134 | true exactly when some item has the same pid and page as the value |
| Queues.SortedInsertedAddrs | queue/queue.c:79-115 | the set of pages after a sorted insert is the old set plus the new page |
| Queues.SortedInsertedItems | queue/queue.c:79-115 | a sorted insert keeps every old item and adds no item except the value |
| Queues.SortedInsertedIncreasing | queue/queue.c:88-113 | if the pages after the front are strictly increasing, they still are after a sorted insert |
| Queues.SortedInsertedSize | queue/queue.c:90-96 | the insert is a no-op exactly when the page already occurs after the front; otherwise the queue grows by one |
| Queues.PlaceAddrs | queue/queue.c:90-113 | inserting into the part after the front adds exactly the new page to its set of pages |
| Queues.PlaceIncreasing | queue/queue.c:90-113 | inserting into a strictly increasing list keeps it strictly increasing |
| Queues.PlaceSize | queue/queue.c:92-96 | inserting into an increasing list changes nothing if the page is present, and otherwise adds one item |
| Queues.AddrsMember | queue/queue.c:123-134 | a page is in the set of pages exactly when some item carries it |
| Queues.ContainsOwned | queue/queue.c:118-121 | in a queue of one process's references, `queue_search` for that process succeeds exactly when the page is among its pages |
| Queues.BuildSetAddrs | page_repl_algorithms/page_repl.c:121-129 | the set built by `make_set` has exactly the pages of the accumulator and the window |
| Queues.BuildSetOwned | page_repl_algorithms/page_repl.c:121-129 | a set built from one process's references holds only that process's references |
| Queues.BuildSetIncreasing | page_repl_algorithms/page_repl.c:121-129 | pages after the front of the built set are strictly increasing |
| Queues.WorkingSetMembership | page_repl_algorithms/page_repl.c:121-129 | a reference of the process is in its working set exactly when its page is in the history window |
| MemoryStructs.CountSetUpdate | page_repl_algorithms/page_repl.c:138-141 | overwriting one slot changes the occupancy count by the change of that slot's `set` flag |
| MemoryStructs.CountSetFull | memory/ipt_management.c:47-48 | `ipt_curr == ipt_size` exactly when every slot is occupied |
| MemoryStructs.FreeSlotExists | memory/ipt_management.c:47-58 | below capacity an unoccupied slot exists, so the scan of `ipt_fit` finds one |
| MemoryStructs.CountSetPositive | page_repl_algorithms/page_repl.c:141 | a table with an occupied slot has a positive count, so `rm_page`'s decrement does not underflow |
| MemoryStructs.ResidentOnce | memory/ipt_management.c:24-36 | in a consistent table a resident reference occupies exactly one frame |
| MemoryStructs.ZeroTableIsEmpty | memory/memory.c:57-73 | zeroed tables have occupancy count 0 |
| MemoryStructs.Memory.Init | memory/memory.c:46-92 | `mem_init`: tables of `frames` empty slots, zero counters and `ipt_curr`, the algorithm; under WS, the window size, the first two pids and an empty window each; the invariant holds |
| MemoryStructs.NewHistory | memory/memory.c:80-88 | the tracked pids are copied and each gets its own fresh, empty window |
| PageRepl.FirstIndex | page_repl_algorithms/page_repl.c:68-74 | the index found holds the pid and no earlier index does |
| PageRepl.FindHistoryWindow | page_repl_algorithms/page_repl.c:68-74 | returns the first index of the tracked pid (the corrected comparison, see "## Findings") |
| PageRepl.FirstIndexUnique | page_repl_algorithms/page_repl.c:68-74 | any index holding the pid with no earlier one is the one found |
| PageRepl.FindHistoryWindowAsWritten | page_repl_algorithms/page_repl.c:68-74 | the loop as written, where the pid is an `int8_t`: it succeeds exactly when some tracked byte equals the signed value of the pid, and then returns the first such index |
| PageRepl.AsWrittenMissesHighPid | page_repl_algorithms/page_repl.c:20 | a tracked pid of 128 or more is never matched as written, though it has a first index |
| PageRepl.AsWrittenMissExample | page_repl_algorithms/page_repl.c:68-74 | with pids 200 and 1, the lookup of 200 as written finds nothing |
| PageRepl.Window | page_repl_algorithms/page_repl.c:60-63 | the window after a push ends with the new reference, never exceeds W, and grows by one unless it was full |
| PageRepl.WindowKeepsLatest | page_repl_algorithms/page_repl.c:54-64 | pushing into the window of the last W references gives the last W references of the extended history |
| PageRepl.WindowOwned | page_repl_algorithms/page_repl.c:56-63 | a window of one process's references stays so after a push of that process's reference |
| PageRepl.WsUpdateHistoryWindow | page_repl_algorithms/page_repl.c:54-64 | the window of `pid` takes the reference `(1, pid, page)` and drops its oldest entry when full; every other window is unchanged; the invariant holds |
| PageRepl.RmPage | page_repl_algorithms/page_repl.c:133-142 | a disk write exactly when the frame is dirty; both sides of the frame are unset; `ipt_curr` drops by one |
| PageRepl.Oldest | page_repl_algorithms/page_repl.c:28-46 | the index whose timestamp is strictly older than every earlier one and no newer than any later one |
| PageRepl.OldestUnique | page_repl_algorithms/page_repl.c:34-46 | that characterisation determines the index: ties go to the lowest index |
| PageRepl.OldestOfIncreasing | page_repl_algorithms/page_repl.c:34-46 | when timestamps increase with the index, frame 0 is the oldest |
| PageRepl.FindOldest | page_repl_algorithms/page_repl.c:28-46 | the scan of `lru` returns `Oldest` of the timestamps |
| PageRepl.Lru | page_repl_algorithms/page_repl.c:24-50 | `lru` on a full table frees the oldest frame, with a disk write if it was dirty, and returns its index |
| PageRepl.MakeSet | page_repl_algorithms/page_repl.c:121-129 | the target becomes the sorted inserts of every window item, in order |
| PageRepl.LastOwned | page_repl_algorithms/page_repl.c:88-92 | the highest frame whose pid is `pid`, or -1 when there is none |
| PageRepl.LastStale | page_repl_algorithms/page_repl.c:93-99 | the highest frame of `pid` whose page is not in the working set, or -1 |
| PageRepl.NoStaleNoWrites | page_repl_algorithms/page_repl.c:95-99 | a scan that finds no stale frame costs no disk write |
| PageRepl.ClearStaleAt | page_repl_algorithms/page_repl.c:88-100 | after i steps of the scan, each slot below i is unset exactly when stale, and each slot from i on is untouched |
| PageRepl.ClearStaleAhead | page_repl_algorithms/page_repl.c:88-100 | the scan has not touched the slot it is about to read |
| PageRepl.ScanStep | page_repl_algorithms/page_repl.c:88-100 | one step of the scan updates `last`, `empty` and the write count as the loop body does |
| PageRepl.ScanFrame | page_repl_algorithms/page_repl.c:90-99 | one frame: reports whether `pid` owns it and whether it is stale; a stale frame is removed with its disk write; otherwise nothing changes |
| PageRepl.EvictStale | page_repl_algorithms/page_repl.c:88-100 | the scan returns `LastOwned` and `LastStale`, unsets every stale frame and counts one write per dirty stale frame |
| PageRepl.ScanOutcome | page_repl_algorithms/page_repl.c:98-116 | when some frame is stale, the scan's result is the Working Set outcome and the returned frame is the last stale one |
| PageRepl.FallbackOutcome | page_repl_algorithms/page_repl.c:108-112 | when no frame is stale, the scan changes nothing, and evicting the last owned frame is the Working Set outcome |
| PageRepl.ReplaceAgainst | page_repl_algorithms/page_repl.c:88-116 | against a given set: starvation exactly when `pid` owns no frame, with no change then; otherwise the tables become `Evicted`, the returned frame is `WsTarget` and is free, and the writes are `WsWrites` |
| PageRepl.WorkingSet | page_repl_algorithms/page_repl.c:77-117 | `working_set`: the same outcome, against the set built from `pid`'s history window |
| PageRepl.WsVictimOwned | page_repl_algorithms/page_repl.c:90 | the Working Set evicts only frames of the requesting process |
| PageRepl.WsTargetIsLastVictim | page_repl_algorithms/page_repl.c:98-116 | the returned frame is evicted, and no higher frame is |
| PageRepl.WsVictimByWindow | page_repl_algorithms/page_repl.c:88-112 | a frame is evicted exactly when `pid` owns it and either its page is not in the history window, or all of `pid`'s pages are and it is `pid`'s highest frame |
| PageRepl.WorkingSetExample | page_repl_algorithms/page_repl.c:54-64 | with a window of 3, pages 1 2 3 1 4 leave the window 3 1 4, whose working set is {1, 3, 4}, built as 3 1 4 |
| IptManagement.NewFrame | memory/ipt_management.c:89-90 | the main-memory entry `set_new_entry` writes: set, dirty exactly for mode 'W', with the offset and time of the reference |
| IptManagement.Touched | memory/ipt_management.c:28-32 | a hit dirties the frame on 'W' and keeps its dirty flag on a read, and stamps it with the time and offset of the hit |
| IptManagement.FirstMatch | memory/ipt_management.c:24-36 | the first frame matching `(pid, page)`, or -1 exactly when the page is not resident |
| IptManagement.FirstFree | memory/ipt_management.c:52-58 | the first unoccupied slot, or -1 exactly when every slot is occupied |
| IptManagement.FirstMatchOnly | memory/ipt_management.c:24-36 | in a table without duplicates, any matching frame is the first match |
| IptManagement.FreeIffRoom | memory/ipt_management.c:47-58 | a free slot exists exactly when `ipt_curr < ipt_size` |
| IptManagement.ClearedNotResident | memory/ipt_management.c:69-79 | evicting frames cannot make the requested page resident |
| IptManagement.SetNewEntry | memory/ipt_management.c:86-91 | frame `index` takes `(1, pid, page)` and a main-memory entry that is set, dirty exactly for 'W', with the offset and time |
| IptManagement.PlaceKeepsTables | memory/ipt_management.c:59-61 | placing a non-resident reference in a free slot raises the count by one and keeps the tables aligned and duplicate-free |
| IptManagement.PlaceAt | memory/ipt_management.c:59-61 | `set_new_entry` on a free slot and the increment of `ipt_curr`; the invariant holds |
| IptManagement.IptSearch | memory/ipt_management.c:19-38 | succeeds exactly when the reference is resident; on a hit, that frame is dirtied for 'W' and takes the new time and offset; on a miss nothing changes |
| IptManagement.IptFit | memory/ipt_management.c:43-64 | fails, changing nothing, exactly when the table is full; otherwise places the reference in the first free slot and counts it |
| IptManagement.IptReplacePage | memory/ipt_management.c:69-82 | the run starves exactly when the policy is WS and `pid` owns no frame, with the tables and `hd_writes` unchanged; otherwise `LruReplaced` (the oldest frame takes the reference, one write if it was dirty) or `WsReplaced` (the Working Set victims are cleared, `WsTarget` takes the reference, `WsWrites` writes) |
| IptManagement.LruReplacedSparesOthers | page_repl_algorithms/page_repl.c:48-49 | an LRU replacement changes only the oldest frame, which then holds the new reference |
| IptManagement.WsReplacedSparesOthers | page_repl_algorithms/page_repl.c:88-112 | a Working Set replacement leaves every frame of another process as it was |
| MemoryEngine.ShiftsKeepLowBits | memory/memory.c:23 | `(addr << 20) >> 20` on 32 bits keeps the low 12 bits |
| MemoryEngine.OffsetOf | memory/memory.c:23 | the offset is the address modulo the page size |
| MemoryEngine.PageOf | memory/memory.c:24 | `addr >> 12` is the number of the 4096-byte page holding the address |
| MemoryEngine.AddressSplit | memory/memory.c:23-24 | address = page × 4096 + offset, with offset < 4096 and page < 2^20 |
| MemoryEngine.ServeMiss | memory/memory.c:35-41 | a miss: one page fault and one disk read, then `ipt_fit` or, on a full table, `ipt_replace_page`, with their outcomes: the first free slot, or on a full table the starvation case or the new tables of `LruReplaced` or `WsReplaced`; unless starved, the reference is then resident and served |
| MemoryEngine.Lookup | memory/memory.c:32-41 | a hit touches the frame and changes no counter; a miss behaves as `ServeMiss`, with the same new tables and disk writes |
| MemoryEngine.MemRetrieve | memory/memory.c:19-42 | `mem_retrieve`: one more request, the WS window rolled with the page, then the lookup on the page and offset of `addr`: a hit, a fill of the first free slot, or a replacement with the new tables of `LruReplaced` or `WsReplaced` (against the rolled window), or starvation with the tables unchanged; the invariant holds |

## Left out

- `mem_clean`, `queue_destroy`, `queue_print` and `mem_stats` are left out.
  They release storage or print (memory/memory.c:96-137,
  queue/queue.c:137-157). The counters they report are fields of `Memory`.
- The `assert` after each `malloc` and `calloc` is left out, because
  allocation cannot fail in the model.
- `clock_gettime` is left out. The reference's time is the parameter `t`
  of `MemRetrieve`.
- `simulator.c` and `test.c` are not part of this model: argument parsing,
  trace-file reading and the reports. The top-level `memory.c`,
  `page_repl.c` and `queue.c` are earlier copies of the modelled files and
  are also not part of this model.
- The counters `hd_reads`, `hd_writes`, `page_fs`, `total_req` and
  `ipt_curr` are `size_t` in the source and unbounded naturals here. Their
  wrap-around is not modelled.
- The linked nodes of `struct queue` are a sequence. Node reuse in
  `queue_emplace_last` and the `front`/`tail` pointers are not modelled;
  only the order of the items is.
- `vm->ws->set` is a local queue of `WorkingSet` rather than a field of
  `Memory`, because it is created and destroyed within one call.
- `struct memory`, `main_memory`, `virtual_memory` and `working_set_comp`
  are folded into one class. `mm_size` and `ipt_size` are the lengths of
  the two arrays.
- MemoryStructs.Memory.Init: requires a window size of at least 2 under WS.
  `queue_emplace_last` on a one-node queue leaves `front` at NULL, and the
  next push dereferences it. `simulator.c:84-85` rejects only a window of 0.
- MemoryEngine.MemRetrieve: under LRU, requires at least one frame,
  because `lru` reads `entries[0]` (page_repl_algorithms/page_repl.c:31).
- MemoryEngine.MemRetrieve: under WS, requires `pid` to be tracked.
  Otherwise `find_history_window` falls off its end without returning
  (page_repl_algorithms/page_repl.c:68-74).
- MemoryEngine.MemRetrieve: the exit on starvation
  (page_repl_algorithms/page_repl.c:102-106) is the result `ok == false`.
  The state is the one at the exit.
- PageRepl.Lru and PageRepl.WorkingSet: require a full table, which is
  the only state `ipt_replace_page` calls them in. A full table also means
  every slot the Working Set scan reads is occupied.
- PageRepl.RmPage: requires an occupied frame, as at every call site.
- IptManagement.IptFit and IptManagement.IptReplacePage: require the
  reference not to be resident. They run only after `ipt_search` failed.

## Findings

| source | as written | input that shows it | evidently intended | confidence | as-written member | corrected member |
|---|---|---|---|---|---|---|
| page_repl_algorithms/page_repl.c:68-74 | `find_history_window` takes the pid as `int8_t`, so a pid of 128 or more becomes negative and never equals the `uint8_t` entry of `history_index` | tracked pids 200 and 1, lookup of pid 200: no index matches and the function falls off its end | the pid is compared as the unsigned byte it is everywhere else, and the window of pid 200 (index 0) is found | not executed | PageRepl.FindHistoryWindowAsWritten | PageRepl.FindHistoryWindow |

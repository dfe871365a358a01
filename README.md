# ETL job scheduler and LRU cache, modelled in Dafny

This project models the two in-memory data structures of a small ETL
pipeline and proves what they promise:

- **Job scheduling** (`src/utils/priority_queue.py`). `JobScheduler` is a
  min-priority queue of ETL jobs, kept as a `heapq` list of
  `(priority, counter, job)` tuples. Lower numbers mean higher priority, from
  `CRITICAL = 1` to `BACKGROUND = 5`. The counter strictly increases and
  breaks ties, so jobs of equal priority leave in the order they were
  scheduled. `DependencyResolver` records each job's prerequisite ids and the
  set of completed ids. It hands a job to the scheduler when every
  prerequisite has completed, and otherwise appends it to a waiting queue.
- **LRU cache** (`src/utils/lru_cache.py`). `LRUCache` is an `OrderedDict`
  used as a recency list, with bounded capacity, an optional time-to-live and
  hit/miss counters.

The files:

- `wrappers.dfy` (module `Wrappers`): `Option`, `Outcome` and `Result`.
  - `Outcome`/`Result` stand for an operation that may raise.
- `job_heap.dfy` (module `JobHeap`): the job records and the heap.
  - The records: `JobPriority`, `ETLJob`, and the heap `Entry`.
  - The `(priority, counter)` order and the heap invariant.
  - `heapq.heappush`/`heappop` as methods over a sequence, with loop invariants.
  - The specification of dispatch. `MinOf` gives the least pending entry, and
    `DispatchOrder` the order in which a multiset of entries drains. Lemmas
    prove that this order is a permutation of the entries and sorted by
    `(priority, counter)`.
- `scheduler.dfy` (module `Scheduling`): the two classes.
  - `JobScheduler` has the heap list, the counter and the completed count as
    fields. Each method is proved against the multiset of pending entries.
  - `DependencyResolver` has the dependency map, the completed set and the
    waiting queue as fields.
- `lru_cache.dfy` (module `Cache`): the class `LRUCache<V>`.
  - The `OrderedDict` is split into two fields. The key order is a
    sequence, least recently used first. The entries are a map from key to
    value and timestamp.
  - The invariant `Valid` holds throughout. No key appears twice in the order,
    the order and the map hold the same keys, and there are at most
    `capacity` keys.

The clock (`time.time()`) is the integer parameter `now`.

Every method of `JobScheduler` and `DependencyResolver` is a stub whose body
is `pass`. Its
behaviour is given step by step in the method's documentation comment, and
the model follows those steps. The source defines no duplicate-id or
unknown-id errors, no cycle check and no operation that releases waiting
jobs, so the model has none either (see below).

## Model

| member | source | states |
|---|---|---|
| JobHeap.JobPriority.Level | src/utils/priority_queue.py:15-21 | levels lie between 1 and 5 and follow the declaration order: CRITICAL is 1, HIGH 2, NORMAL 3, LOW 4, BACKGROUND 5, so a more urgent level has a lower number |
| JobHeap.MinExists | src/utils/priority_queue.py:79-92 | every non-empty collection of pending entries has a least entry under the `(priority, counter)` order |
| JobHeap.MinIsUnique | src/utils/priority_queue.py:52-53 | when no two entries share a counter, the least entry is unique, so the next job is determined |
| JobHeap.MinOf | src/utils/priority_queue.py:79-92 | the entry the next `get_next_job` returns: no pending entry comes before it |
| JobHeap.RootIsLeast | src/utils/priority_queue.py:72-75 | in a heap list, the first element comes no later than any other |
| JobHeap.HeapRootIsMin | src/utils/priority_queue.py:88 | the root of a heap is a least entry of its contents |
| JobHeap.RootIsMin | src/utils/priority_queue.py:88 | with distinct counters, the heap root is exactly `MinOf` of the pending entries |
| JobHeap.DispatchStep | src/utils/priority_queue.py:86-91 | draining starts with the least entry and continues with the drain of the rest |
| JobHeap.DispatchOrder | src/utils/priority_queue.py:79-92 | the sequence repeated `get_next_job` calls return when nothing is pushed in between: the least entry, then the drain of the rest; it has exactly as many entries as are pending |
| JobHeap.DispatchOrderIsPermutation | src/utils/priority_queue.py:79-92 | draining the scheduler returns every pending entry exactly once |
| JobHeap.MinPrecedesRest | src/utils/priority_queue.py:70-74 | after removing the least entry, counters stay distinct and it strictly precedes every remaining entry |
| JobHeap.DispatchOrderSorted | src/utils/priority_queue.py:70-74 | jobs leave in strictly increasing `(priority, counter)` order: lower priority numbers first, and FIFO among equal priorities |
| JobHeap.EqualPriorityFifo | src/utils/priority_queue.py:52-53 | of two pending jobs with equal priority, the later-scheduled one is never next |
| JobHeap.HeapPush | src/utils/priority_queue.py:72-75 | `heappush` keeps the heap property and adds exactly the new entry |
| JobHeap.SiftDown | src/utils/priority_queue.py:88 | restoring the heap below a replaced root keeps the contents and yields a heap |
| JobHeap.HeapPop | src/utils/priority_queue.py:88 | `heappop` returns the root, a least entry, and leaves a heap of exactly the other entries |
| Scheduling.JobScheduler.constructor | src/utils/priority_queue.py:47-56 | empty heap, counter 0, no completed jobs |
| Scheduling.JobScheduler.ScheduleJob | src/utils/priority_queue.py:58-77 | pending entries grow by exactly `(level, old counter, job)`; the counter exceeds every pending counter and advances by one; length grows by one; completed count unchanged |
| Scheduling.JobScheduler.GetNextJob | src/utils/priority_queue.py:79-92 | `None` and the heap unchanged when empty; otherwise returns the least `(priority, counter)` job and removes exactly that entry; counter and completed count unchanged |
| Scheduling.JobScheduler.PeekNext | src/utils/priority_queue.py:94-104 | `None` when empty, otherwise the very job `GetNextJob` would return |
| Scheduling.JobScheduler.IsEmpty | src/utils/priority_queue.py:106-109 | true exactly when nothing is pending |
| Scheduling.JobScheduler.PendingJobs | src/utils/priority_queue.py:111-114 | the number of pending entries; zero exactly when `IsEmpty` |
| Scheduling.JobScheduler.Len | src/utils/priority_queue.py:132-135 | the same count as `PendingJobs` |
| Scheduling.JobScheduler.CompleteJob | src/utils/priority_queue.py:116-119 | the completed count grows by one; the heap and counter are not in its frame |
| Scheduling.JobScheduler.Stats | src/utils/priority_queue.py:121-130 | `pending` is `Len`; `completed` is the completed count; `next_priority` is `None` exactly when empty, otherwise the priority of the peeked job, which no pending job undercuts |
| Scheduling.NewEntry | src/utils/priority_queue.py:70-72 | steps 1-2 of `schedule_job`: the job record and the `(priority, counter, job)` tuple, with the level as both the tuple's and the job's priority and the given counter |
| Scheduling.ExampleEntries | src/utils/priority_queue.py:70-74 | the fixture for the NORMAL, HIGH, HIGH example: the two HIGH entries share a level below NORMAL's, and the entries carry counters in scheduling order |
| Scheduling.ScheduleExampleJobs | src/utils/priority_queue.py:58-77 | scheduling three jobs leaves exactly their three entries pending |
| Scheduling.DispatchExample | src/utils/priority_queue.py:79-92 | jobs scheduled NORMAL, HIGH, HIGH come out as the first HIGH, the second HIGH, then the NORMAL one, then `None` |
| Scheduling.AllCompleted | src/utils/priority_queue.py:181-185 | true exactly when every listed prerequisite is in the completed set |
| Scheduling.NothingCompletedBlocksEveryPrerequisite | src/utils/priority_queue.py:177-186 | with nothing completed, exactly the jobs without prerequisites can be scheduled |
| Scheduling.DependencyResolver.constructor | src/utils/priority_queue.py:154-163 | keeps the scheduler; no dependencies, no completed jobs, an empty waiting queue |
| Scheduling.DependencyResolver.AddDependency | src/utils/priority_queue.py:165-175 | records (or replaces) the prerequisite list of that job and changes no other entry |
| Scheduling.DependencyResolver.CanSchedule | src/utils/priority_queue.py:177-186 | true exactly when every prerequisite is completed; a job without prerequisites can always be scheduled |
| Scheduling.DependencyResolver.ScheduleWithDependencies | src/utils/priority_queue.py:188-200 | records the prerequisites exactly when given; the job goes to exactly one place: into the scheduler's pending entries (waiting queue unchanged) when it can be scheduled, else to the end of the waiting queue (scheduler unchanged) |
| Cache.Remove | src/utils/lru_cache.py:53-58 | deleting a key from the order: exactly the other keys remain, duplicate-freedom is kept, one fewer key when it was present |
| Cache.RemoveKeepsOrder | src/utils/lru_cache.py:53-58 | deleting a key keeps the relative order of all other keys |
| Cache.KeysCount | src/utils/lru_cache.py:83-85 | the number of entries equals the length of the key order |
| Cache.LRUCache.constructor | src/utils/lru_cache.py:19-23 | stores capacity and TTL; empty cache; hits and misses 0 |
| Cache.NewCache | src/utils/lru_cache.py:16-23 | `ValueError` exactly when capacity is not positive; otherwise a fresh empty valid cache with that capacity and TTL |
| Cache.LRUCache.StoreEvictingIfFull | src/utils/lru_cache.py:34-40 | at full capacity the front (least recently used) key is evicted; then the entry `(value, now)` is stored, a new key going to the end; size never exceeds capacity |
| Cache.LRUCache.Put | src/utils/lru_cache.py:25-40 | a stored key fails with `NameError` and changes nothing; a new key becomes the last (most recently used) with `(value, now)`, all other keys keeping their order, and at full capacity exactly the front key is evicted |
| Cache.LRUCache.Touch | src/utils/lru_cache.py:30-32 | once corrected, the update path gives the key its new entry and moves it to the end, size unchanged |
| Cache.LRUCache.PutIntended | src/utils/lru_cache.py:25-40 | corrected `put`: updating a stored key moves it to the end with its new entry and evicts nothing; new keys as in `Put` |
| Cache.LRUCache.PutWithNameFixed | src/utils/lru_cache.py:29-40 | `put` with only the name corrected: updating a stored key in a full cache also evicts the front key among the others |
| Cache.LRUCache.IsExpired | src/utils/lru_cache.py:52 | the TTL test: never expired without a TTL; expired only once `now` has reached the timestamp plus the TTL |
| Cache.LRUCache.ExpiryIsPermanent | src/utils/lru_cache.py:52 | an entry expired at some time is expired at every later time |
| Cache.LRUCache.Get | src/utils/lru_cache.py:42-60 | absent key: sentinel, one more miss, nothing else changes; expired key: deleted, one more miss, `None`; otherwise its value, one more hit, key moved to the end, other keys in order |
| Cache.LRUCache.Clear | src/utils/lru_cache.py:63-67 | no keys, hits and misses reset to 0; capacity and TTL untouched |
| Cache.LRUCache.Len | src/utils/lru_cache.py:83-85 | the number of stored keys, never above capacity |
| Cache.LRUCache.Contains | src/utils/lru_cache.py:87-89 | true exactly when the key is stored, equivalently in the order |
| Cache.LRUCache.Stats | src/utils/lru_cache.py:69-81 | size, capacity, hits and misses as stored, with size at most capacity |
| Cache.PutThenGet | src/utils/lru_cache.py:25-60 | a new key read back at its store time is found with its value and is most recently used, unless the TTL is not positive, in which case it reads as expired and is deleted |
| Cache.UpdateIsLost | src/utils/lru_cache.py:30-32 | storing a key twice: the second `put` raises `NameError` and `get` still returns the first value |
| Cache.NameFixAloneEvicts | src/utils/lru_cache.py:35-37 | capacity 2 holding "a" and "b": updating "a" with only the name corrected evicts "b" and leaves one key |
| Cache.IntendedUpdateKeepsOthers | src/utils/lru_cache.py:29-32 | the same update through the corrected `put` keeps "b" and both keys |

## Left out

- `ETLJob.created_at` and `datetime.now`: a wall-clock value. The record
  keeps priority, id, type and configuration.
- `ETLJob` ordering: the dataclass's generated ordering is not modelled.
  It compares priority and then `created_at`. As declared, its non-default
  `job_id` follows the defaulted `created_at`, which Python rejects when the
  class is defined. The queue order comes only from `(priority, counter)`.
- `ETLJob.config`: a string-to-string map, since the configuration's
  contents are never inspected.
- `JobScheduler.ScheduleJob`: the job's priority is the `JobPriority` level.
  The integer passed to `ETLJob` is that level.
- `JobHeap.HeapPop`: sifts the new root down the textbook way. CPython's
  `heapq` moves the hole to a leaf first and then back up. The heaps can
  differ in layout, but counters are distinct, so the popped job and the
  remaining entries are the same.
- `__repr__` of every class and the string formatting of the stats key.
- The floating-point `hit_rate_percent` of `LRUCache.stats`, and the `name`
  argument that only names the returned key.
- `time.time()`: an integer `now` supplied by the caller, not a float.
- `DependencyResolver` behaviour that the source does not define, left out
  rather than invented:
  - no operation fills the completed set;
  - waiting jobs are never released;
  - there is no cycle detection, and a repeated job id is accepted.
- `DependencyResolver.ScheduleWithDependencies`: "add dependencies if
  provided" is read as "a list was passed", so an empty list replaces earlier
  prerequisites. The job is scheduled with an empty configuration, since the
  method has no configuration parameter.
- `JobScheduler.CompleteJob`: the job argument is not used. The contract
  states the new count, but not that the heap is unchanged: that follows
  from its frame.
- `Cache.Lookup`: `get` returns the string `"Key is invalid"`, `None` or the
  stored value through one untyped result, so a stored value equal to either
  of the first two cannot be told apart from a miss or an expiry. The model
  keeps the three outcomes apart.
- Locking and concurrency: nothing in the core is concurrent.

## Findings

| source | as written | input that shows it | evidently intended | confidence | as-written member | corrected member |
|---|---|---|---|---|---|---|
| src/utils/lru_cache.py:30-32 | the update path stores `(value, tistamp)`, a name that is never defined, so every `put` of a stored key raises `NameError` before changing anything | capacity 1: `put("a", 1)`, then `put("a", 2)` raises, and `get("a")` still returns 1 | store `(value, timestamp)` under the key and move it to the most recently used end | not executed | Cache.UpdateIsLost | Cache.LRUCache.PutIntended |
| src/utils/lru_cache.py:35-37 | with the name corrected, the capacity check still runs after an update and evicts the front key, though the update adds no key | capacity 2: `put("a")`, `put("b")`, `put("a")` evicts "b", leaving one key | check capacity only when the key is new, so an update evicts nothing | not executed | Cache.NameFixAloneEvicts | Cache.IntendedUpdateKeepsOthers |

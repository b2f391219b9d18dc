# Concurrency study: verified sequential core

This project models, in Dafny, the parts of the concurrency exercises that have
sequential behaviour worth stating precisely, once locks and blocking waits are
abstracted away:

- **`Lru`** (`lru_cache.dfy`) — the single-threaded LRU cache `LRUCache_Test<Key, Value>`.
  The recency list `lru_list_` is a field `entries: seq<(K, V)>`, front = most recently
  used. The index `node_map_` is a field `index: set<K>` holding the keys that have a
  node. The pure functions `KeysOf`, `Position`, `Lookup`, `Splice`, `Evicted`, `Touch`
  and `PutList` say what each list operation does. The class `LruCache` applies them in
  place and keeps the invariant `Valid()`: capacity positive, size within capacity,
  keys distinct, index equal to the list's key set, and the list in recency order.
  Recency is recorded by two ghost fields. A clock counts the uses, meaning each `get`
  that finds its key and each `put`. A map gives each used key the clock reading at its
  last use. Recency order means a node nearer the front was used more recently than
  every node behind it, so the tail that `evict_lru` drops is the least recently used
  key.
- **`ThreadSafeLru`** (`thread_safe_lru_cache.dfy`) — `ThreadSafeLRUCache`, the wrapper
  that delegates to the LRU cache and counts hits and misses. A ghost log of get
  outcomes since the last `reset_stats` ties the two counters to the calls that
  produced them.
- **`TaskQueue`** (`safe_queue.dfy`) — `SafeQueue<T>`, the thread pool's closable bounded
  FIFO, and the `stop_` gate of `ThreadPool::enqueue`. Each condition-variable wait
  becomes a precondition. The step functions `ProduceStep`, `ConsumeStep` and
  `CloseStep`, together with `Run`, describe one queue as a state machine over a
  sequence of completed calls. The lemmas about `Run` state FIFO order, the capacity
  bound, rejection after close, and drain-then-end-of-stream. The classes `SafeQueue`
  and `ThreadPool` take the same steps in place, with ghost histories of accepted and
  delivered values.
- **`ProducerConsumer`** (`bounded_buffer.dfy`) — the demo's `BoundedBuffer`: a bounded
  FIFO of ints with no close state.
- **`TurboSort`** (`turbo_sort.dfy`) — `parallel_merge_sort`, as a recursive method on an
  array segment `[lo, hi)`:
  - Segments shorter than 1000 are sorted directly.
  - Longer segments are split at `len / 2`, both halves are sorted, and the two runs
    are merged.
  - `SortSeq` stands for what `std::sort` computes, and `Merge` for what
    `std::inplace_merge` computes; the array methods write those results back in place.
  - `MergeSorted` is the recursion on values. The method's postcondition ties the
    segment to it.
- **`Common`** (`common.dfy`) — `Option`, `Result` and the two exceptions the cache
  throws, `InvalidArgument` and `OutOfRange`, which become error values.

Facts about the pool code that the model keeps:

- `SafeQueue` accepts any `max_size`, zero included; with zero, every produce waits
  until close.
- `ThreadPool` always builds its queue with capacity 100.
- `ThreadPool::enqueue` checks `stop_` before it calls `produce`.
- `ThreadPool` accepts any thread count, zero included.

## Model

| member | source | states |
|---|---|---|
| Lru.KeysOf | week_2/LRUCache_Test.h:132-133 | the index's key set: every node's key is in it and every key in it belongs to some node |
| Lru.Position | week_2/LRUCache_Test.h:38 | for a key in the index, the position of its node: that node carries the key and no earlier node does |
| Lru.Lookup | week_2/LRUCache_Test.h:42-44 | a value exists exactly for cached keys; with distinct keys it is the value in the key's unique node |
| Lru.Splice | week_2/LRUCache_Test.h:112-115 | move_to_front: the chosen node is first, the nodes before it shift back by one, the nodes after it stay where they were; keys are kept and stay distinct |
| Lru.SpliceKeys | week_2/LRUCache_Test.h:112-115 | splicing a node to the front neither adds nor loses a key |
| Lru.SpliceDistinct | week_2/LRUCache_Test.h:112-115 | splicing a node to the front creates no duplicate key |
| Lru.Evicted | week_2/LRUCache_Test.h:120-128 | evict_lru drops exactly the tail node and, with distinct keys, exactly its key from the index; it does nothing on an empty list |
| Lru.EvictedLeastRecent | week_2/LRUCache_Test.h:117-128 | in a list in recency order, the tail's key was used before every other cached key; evicting it removes exactly that key and leaves the rest in recency order |
| Lru.SpliceRecency | week_2/LRUCache_Test.h:112-115 | moving a node to the front while recording a use of its key keeps the list in recency order |
| Lru.PrependRecency | week_2/LRUCache_Test.h:64-65 | pushing a new key to the front while recording its use keeps the list in recency order |
| Lru.PutRecency | week_2/LRUCache_Test.h:52-66 | every branch of put, with the use of its key recorded, leaves the list in recency order |
| Lru.TouchRecency | week_2/LRUCache_Test.h:37-45 | a get that finds its key, with the use recorded, leaves the list in recency order |
| Lru.TouchInv | week_2/LRUCache_Test.h:37-45 | a get that finds its key keeps the whole cache invariant: capacity, index, distinct keys, recency order |
| Lru.PutInv | week_2/LRUCache_Test.h:52-66 | put keeps the whole cache invariant; the index keeps its keys on an update, gains k, and loses only the tail's key when a new key meets a full cache |
| Lru.EvictInv | week_2/LRUCache_Test.h:117-128 | evicting from a non-empty valid cache keeps the invariant, and the key removed is the least recently used one |
| Lru.DistinctKeysCard | week_2/LRUCache_Test.h:79-81 | with distinct keys the list and the index have the same size |
| Lru.UpdateValue | week_2/LRUCache_Test.h:56 | overwriting a node's value keeps the key set and key distinctness |
| Lru.PrependNew | week_2/LRUCache_Test.h:64-65 | pushing a node with a new key to the front adds exactly that key and keeps keys distinct |
| Lru.PutInvariant | week_2/LRUCache_Test.h:52-66 | put leaves (k, v) at the front, size within capacity, keys distinct; the key set gains k and loses the old tail's key exactly when a new key meets a full cache |
| Lru.PutSize | week_2/LRUCache_Test.h:54-65 | put keeps the size for an existing key or a full cache, and grows it by one otherwise |
| Lru.PutThenGet | week_2/LRUCache_Test.h:52-66 | after put(k, v), get(k) finds v and does not reorder the list |
| Lru.PutKeepsOthers | week_2/LRUCache_Test.h:52-66 | put(k, v) does not change the value of any other key that is still cached |
| Lru.TouchFront | week_2/LRUCache_Test.h:37-45 | get of a cached key puts it first with its stored value, and keeps size, key set and distinctness |
| Lru.LruCache.constructor | week_2/LRUCache_Test.h:25 | a cache of positive capacity starts empty and valid |
| Lru.LruCache.Create | week_2/LRUCache_Test.h:25-29 | capacity 0 is rejected with invalid_argument; otherwise an empty, valid cache of that capacity |
| Lru.LruCache.Get | week_2/LRUCache_Test.h:37-45 | a miss is out_of_range and changes nothing, not even recency; a hit returns the key's value, moves its node to the front and records the key as the most recent use; the index and size are unchanged |
| Lru.LruCache.Put | week_2/LRUCache_Test.h:52-67 | the list becomes PutList of the old list (update and move to front, or evict the tail if full and push a new node); (key, value) is first, key is indexed and is the most recent use; a new key in a full cache evicts the least recently used key; the invariant, recency order included, is kept |
| Lru.LruCache.Contains | week_2/LRUCache_Test.h:72-74 | true exactly when some node of the list carries the key |
| Lru.LruCache.Size | week_2/LRUCache_Test.h:79-81 | the node count equals the number of indexed keys and never exceeds the capacity |
| Lru.LruCache.Capacity | week_2/LRUCache_Test.h:86-88 | the capacity is positive and bounds the size; it is a constant fixed at construction |
| Lru.LruCache.MoveToFront | week_2/LRUCache_Test.h:112-115 | the list is spliced at the node's position and the index is unchanged |
| Lru.LruCache.EvictLru | week_2/LRUCache_Test.h:117-128 | the tail node and its key are removed together, and that key is the least recently used of the cached keys; an empty cache is left as it is; the invariant is kept |
| ThreadSafeLru.CountTotal | week_2/ThreadSafeLRUCache.h:26-33 | every recorded get is either a hit or a miss, so hits + misses is the number of gets |
| ThreadSafeLru.ThreadSafeLruCache.constructor | week_2/ThreadSafeLRUCache.h:16-17 | wraps a fresh empty cache of the given positive capacity; both counters start at 0 |
| ThreadSafeLru.ThreadSafeLruCache.Create | week_2/ThreadSafeLRUCache.h:16-17 | capacity 0 fails with the inner cache's invalid_argument; otherwise a valid wrapper with zero counters |
| ThreadSafeLru.ThreadSafeLruCache.Get | week_2/ThreadSafeLRUCache.h:20-34 | returns the inner get's answer; a hit adds 1 to hits only, a miss adds 1 to misses only and is still out_of_range; hits + misses equals the gets since the last reset |
| ThreadSafeLru.ThreadSafeLruCache.Put | week_2/ThreadSafeLRUCache.h:37-41 | the inner list changes as the inner put says; both counters are unchanged |
| ThreadSafeLru.ThreadSafeLruCache.ResetStats | week_2/ThreadSafeLRUCache.h:52-55 | both counters become 0 and the get log restarts; the cache is untouched |
| ThreadSafeLru.ThreadSafeLruCache.HitCount | week_2/ThreadSafeLRUCache.h:58 | the number of gets since the last reset that hit |
| ThreadSafeLru.ThreadSafeLruCache.MissCount | week_2/ThreadSafeLRUCache.h:61 | the number of gets since the last reset that missed |
| ThreadSafeLru.ThreadSafeLruCache.Contains | week_2/ThreadSafeLRUCache.h:64-68 | exactly the inner cache's contains: some node carries the key |
| ThreadSafeLru.ThreadSafeLruCache.Size | week_2/ThreadSafeLRUCache.h:70-74 | exactly the inner cache's size, never above its capacity |
| TaskQueue.ProduceStep | week_2/day3_task.cpp:37-52 | a produce keeps the capacity and the close flag, and cannot push the queue past max_size |
| TaskQueue.ConsumeStep | week_2/day3_task.cpp:56-75 | a consume keeps capacity and flag, never grows the queue, and reports end-of-stream only on a closed queue |
| TaskQueue.CloseStep | week_2/day3_task.cpp:29-34 | close sets the flag and keeps every queued item and the capacity |
| TaskQueue.RunFifo | week_2/day3_task.cpp:47-70 | over any run, delivered values followed by the remaining queue equal the initial queue followed by the accepted values, so what is consumed is a prefix of what was produced, in order |
| TaskQueue.RunBound | week_2/day3_task.cpp:41-47 | over any run the queue never exceeds max_size, the capacity never changes, and a set close flag stays set |
| TaskQueue.RunAfterClose | week_2/day3_task.cpp:41-45 | once closed, no produce is accepted, the queue stays closed and never grows |
| TaskQueue.DrainThenEnd | week_2/day3_task.cpp:60-74 | on a closed queue, n consumes hand out the first n items in order without waiting, and every consume after the queue empties reports end-of-stream |
| TaskQueue.ShutdownDeliversAll | week_2/day3_task.cpp:117-124 | after any run from an empty queue, closing and draining hands out exactly the accepted values not yet consumed, and leaves the queue closed and empty (produces after close are rejected, by RunAfterClose) |
| TaskQueue.SafeQueue.constructor | week_2/day3_task.cpp:26 | an open, empty queue with the given max_size, any size accepted |
| TaskQueue.SafeQueue.Close | week_2/day3_task.cpp:29-34 | the flag is set and the items stay; calling it again changes nothing |
| TaskQueue.SafeQueue.Produce | week_2/day3_task.cpp:37-52 | under its wait predicate: a closed queue returns false unchanged; an open one appends the value at the back and returns true |
| TaskQueue.SafeQueue.Consume | week_2/day3_task.cpp:56-75 | under its wait predicate: a non-empty queue hands out and removes its front item, even after close; an empty one, which must be closed, reports end-of-stream unchanged |
| TaskQueue.ThreadPool.constructor | week_2/day3_task.cpp:90-91 | the pool owns a fresh open, empty queue of capacity 100 and starts with stop_ clear |
| TaskQueue.ThreadPool.Enqueue | week_2/day3_task.cpp:111-114 | with stop_ set, returns false and leaves the queue as it was; otherwise returns produce's result, which appends the task |
| TaskQueue.ThreadPool.Shutdown | week_2/day3_task.cpp:117-119 | sets stop_ and closes the queue without dropping queued tasks |
| ProducerConsumer.BoundedBuffer.constructor | week_2/day_3_condition_variable_demo.cpp:64 | an empty buffer with the given max_size |
| ProducerConsumer.BoundedBuffer.Produce | week_2/day_3_condition_variable_demo.cpp:66-79 | when not full, appends the value at the back and grows the size by one; consumed + buffer = produced is kept |
| ProducerConsumer.BoundedBuffer.Consume | week_2/day_3_condition_variable_demo.cpp:81-95 | when not empty, returns and removes the front value, shrinks the size by one; the values consumed are a prefix of those produced, in order |
| ProducerConsumer.BoundedBuffer.Size | week_2/day_3_condition_variable_demo.cpp:97-100 | the count never exceeds max_size and equals produced minus consumed |
| TurboSort.SortSeq | week_2/day4_task1_TurboSort.cpp:33-37 | std::sort's result for a short segment: sorted and a permutation of the input |
| TurboSort.Merge | week_2/day4_task1_TurboSort.cpp:68 | std::inplace_merge's result holds exactly the elements of both runs |
| TurboSort.MergeSortedRuns | week_2/day4_task1_TurboSort.cpp:68 | merging two sorted runs gives a sorted run |
| TurboSort.MergeSorted | week_2/day4_task1_TurboSort.cpp:25-70 | the recursion's result on values: sorted and a permutation of the input |
| TurboSort.SortedUnique | week_2/day4_task1_TurboSort.cpp:33-37 | there is only one sorted permutation of a segment, so any correct sort gives the same result |
| TurboSort.MergeSortedIsSort | week_2/day4_task1_TurboSort.cpp:50-65 | whichever branch runs (async or sequential), the recursion's result equals one std::sort of the segment |
| TurboSort.MergeIsSort | week_2/day4_task1_TurboSort.cpp:68 | merging two sorted runs that together hold a segment's elements gives exactly std::sort's result for that segment |
| TurboSort.MergeAnySplit | week_2/day4_task1_TurboSort.cpp:41-68 | the split point does not matter: sorting both sides of any split and merging them gives one std::sort of the segment |
| TurboSort.SortRange | week_2/day4_task1_TurboSort.cpp:35 | the segment becomes its std::sort result; nothing outside it changes |
| TurboSort.InplaceMerge | week_2/day4_task1_TurboSort.cpp:68 | the segment becomes the merge of its two halves; nothing outside it changes |
| TurboSort.ParallelMergeSort | week_2/day4_task1_TurboSort.cpp:25-70 | the segment ends sorted, a permutation of its input, and equal to MergeSorted of it; elements outside it are not modified; the recursion terminates because both halves are shorter |

## Left out

- Mutexes, `shared_mutex`, atomics, lock guards and every `notify_one` / `notify_all`. Each call is one atomic step.
- Blocking: a condition-variable wait becomes a precondition. A call whose wait would never end is not modelled. `Run` returns `None` for a call order in which some call could not have completed.
- `ThreadPool`'s worker threads, their loop that runs tasks, `join`, and the rest of the destructor. These are concurrency mechanics. `ShutdownDeliversAll` states on the queue that draining after close hands out every accepted task. Running a task (`if (task) task();`) is not modelled; tasks are opaque values.
- Lru.LruCache.constructor: requires a positive capacity. The zero-capacity `invalid_argument` throw is modelled by `Create`, which returns an error value instead.
- ThreadSafeLru.ThreadSafeLruCache.constructor: requires a positive capacity. The zero-capacity throw is modelled by `Create`.
- ThreadSafeLru.ThreadSafeLruCache.Get: `hit_count_` and `miss_count_` are unbounded naturals. The `size_t` wrap-around after 2^64 increments is not modelled.
- `get_hit_rate`: it divides in floating point.
- `print()` and every console output.
- `std::sort` and `std::inplace_merge` are library code. Their results are stated by `SortSeq`, an insertion sort, and by `Merge`; `SortedUnique` shows that any correct sort gives the same result. Their in-place algorithms, memory use and stability on non-int types are not modelled.
- The `std::async` launch of `parallel_merge_sort`. Its two recursive calls are modelled in sequence. They touch disjoint halves, so the order does not matter.
- `main` of each demo: random data generation, timing and the speed-up report.
- The other demos in the same files: the basic, timeout and pitfall condition-variable demos.
- The other exercises in the repository: bank counter, mutex basics, advanced locks, async/future demo, parallel calculator, thread basics and the randomized LRU test driver.

# LRU cache and constant-time queue, in Dafny

This project models the two classes of a small Java LRU cache library:

- `LRUCache<T, U>` is a read-through cache of fixed capacity. On a miss it asks
  a data provider for the value, evicts the least recently used key when full,
  and counts misses.
- `ConstantTimeQueue<T>` is a singly linked FIFO queue of nodes with
  `enqueue`, `dequeue`, `remove(data)`, `size` and `toString`.

Modules:

- `Wrappers`: `Option`, standing for a nullable Java reference.
- `Sequences`: sequence vocabulary. `RemoveFirst` is `java.util.List.remove(Object)`;
  `Without`, `Range`, `Newest`, `Map` and `Join` are used by the other modules.
- `QueueSpec`: the queue as its users see it, a `seq<T>` from head to tail.
  `Step` gives each call's meaning. The remove and FIFO scenarios of the
  queue's unit tests are proved here, for any size.
- `ConstantTimeQueue`: the node chain as the Java fields lay it out. Nodes live
  in a heap `seq<Node<T>>` addressed by index, and `null` is `None`. A spine
  (`Spine`) is the list of nodes met from `head` along `next`. The lemmas prove
  that every call on the chain returns what `QueueSpec.Step` returns and leaves
  the same contents (`StepRefines`, `RunRefines`). Every call also keeps head
  null exactly when tail is null, with tail the last node of the spine.
- `LruCache`: the cache state is the key queue (a `java.util.LinkedList` in
  the source, here a `seq`), the value map, the capacity and the miss counter.
  The provider is a pure function passed to `Get`. `Valid` is the invariant
  the class keeps:
  - no key is queued twice;
  - the queued keys are exactly the mapped keys;
  - there are at most `max(capacity, 0)` keys.
- `CacheRuns`: runs of `get` calls (`GetAll`). It holds miss accounting over a
  run and the eviction scenario of the cache test, proved for every capacity.

The cache's key queue is a `LinkedList`, not a `ConstantTimeQueue`. So
`LruCache` works on sequences, and `RemoveFirst` is shared by
`LinkedList.remove(Object)` and the chain's `remove`.

Quirks of the queue that the model reproduces:

- Despite its name, the queue is singly linked and has no index: `remove` is
  an O(n) scan, and there is no peek or moveToTail.
- `size()` returns a field that nothing but the constructor writes, so it is 0
  in every state (`SizeIsStale`, `FromEmpty`).
- `enqueue` accepts duplicates (`EnqueueAppends` has no precondition on the element).

## Model

| member | source | states |
|---|---|---|
| Sequences.RemoveFirst | src/LRUCache.java:93 | Deleting an absent element changes nothing; deleting a present one shortens the sequence by exactly one |
| Sequences.RemoveFirstCuts | src/ConstantTimeQueue.java:29-45 | Deleting a present element removes its first occurrence and keeps everything before and after it, in order |
| Sequences.RemoveFirstOfDistinct | src/LRUCache.java:92-95 | With no duplicates, removing the first occurrence of a key removes every occurrence, so the rest keep their relative order |
| Sequences.JoinSnoc | src/ConstantTimeQueue.java:62-65 | One more element adds the `", "` separator and its text at the end, never a trailing separator |
| QueueSpec.EnqueuesAppend | src/ConstantTimeQueue.java:20-27 | Enqueueing `xs` one by one appends `xs` in call order; every enqueue answers nothing |
| QueueSpec.DequeuesInOrder | src/ConstantTimeQueue.java:47-53 | Dequeueing `|s|` times returns `s[0], s[1], ...` in order and leaves the queue empty |
| QueueSpec.DequeueEmpty | src/ConstantTimeQueue.java:48 | Dequeue on an empty queue returns null and leaves it empty |
| QueueSpec.FifoOrder | test/QueueTest.java:23-36 | After enqueueing `xs` into a new queue, `|xs|` dequeues return `xs` in order and the next one returns null |
| QueueSpec.RunAppend | src/ConstantTimeQueue.java:20-53 | Running two batches of calls one after the other equals running their concatenation |
| QueueSpec.RemoveAscending | test/QueueTest.java:47-58 | Removing `lo..k-1` in order from `lo..hi-1` leaves exactly `k..hi-1` |
| QueueSpec.RemoveAscendingFinds | test/QueueTest.java:47-58 | Each of those removals returns true |
| QueueSpec.RemoveAscendingStep | src/ConstantTimeQueue.java:31-34 | Removing the head element of an ascending range returns true and drops just that head |
| QueueSpec.RemoveHeadOfRange | src/ConstantTimeQueue.java:31-34 | Removing the first element of `lo..hi-1` leaves `lo+1..hi-1` |
| QueueSpec.RemoveDescending | test/QueueTest.java:61-66 | Removing `n-1` down to `m` from `0..n-1` leaves exactly `0..m-1` |
| QueueSpec.RemoveAbsent | src/ConstantTimeQueue.java:29-45 | Removing elements that are absent returns false each time and leaves the contents unchanged |
| QueueSpec.RemoveEverything | test/QueueTest.java:46-51 | Removing `0..n-1` from `0..n-1` empties the queue |
| QueueSpec.RemoveFront | test/QueueTest.java:53-58 | After removing `0..k-1` from `0..n-1` with `k < n`, the head is `k` |
| QueueSpec.RemoveBack | test/QueueTest.java:60-66 | Removing `n` down to `m` from `0..n-1` (`n` is absent) leaves `m-1` at the tail |
| QueueSpec.RemoveFromEmpty | test/QueueTest.java:68-73 | Removing anything from an empty queue leaves it empty |
| QueueSpec.AdjacentRemoval | src/ConstantTimeQueue.java:36-41 | Removing 1 and then 2 from `0..n-1` leaves `0, 3..n-1`: an unlink just after a previous unlink keeps the rest in order |
| QueueSpec.RunPair | src/ConstantTimeQueue.java:29-45 | Two calls in a row apply the first call's meaning, then the second's |
| ConstantTimeQueue.Empty | src/ConstantTimeQueue.java:15-18 | The new queue is well formed, has the empty spine and a size field of 0 |
| ConstantTimeQueue.Enqueue | src/ConstantTimeQueue.java:20-27 | In all three branches the chain stays well formed, size is untouched, and tail is a fresh node holding `d` with null `next` |
| ConstantTimeQueue.EnqueueAppends | src/ConstantTimeQueue.java:20-27 | The new node extends the spine, so the contents become `old + [d]`, duplicates included |
| ConstantTimeQueue.AdvanceHead | src/ConstantTimeQueue.java:32-33 | Moving head to `head.next` keeps the chain well formed: tail is cleared exactly when head becomes null |
| ConstantTimeQueue.AdvanceHeadDropsFirst | src/ConstantTimeQueue.java:50-51 | Advancing the head drops the first spine node, so the contents lose their first element |
| ConstantTimeQueue.Dequeue | src/ConstantTimeQueue.java:47-53 | Returns null exactly when head is null, and then changes nothing; the chain stays well formed |
| ConstantTimeQueue.DequeueTakesHead | src/ConstantTimeQueue.java:47-53 | On an empty queue returns null and changes nothing; otherwise returns `old[0]` and leaves `old[1..]` |
| ConstantTimeQueue.Remove | src/ConstantTimeQueue.java:29-45 | The chain stays well formed; a remove that returns false leaves the object unchanged |
| ConstantTimeQueue.RemoveAfter | src/ConstantTimeQueue.java:36-43 | The scan keeps the chain well formed and changes nothing when it finds nothing |
| ConstantTimeQueue.Bypass | src/ConstantTimeQueue.java:38-39 | Relinking `pointer.next` (and moving tail back) keeps the chain well formed, the head, and every node's element |
| ConstantTimeQueue.UnlinkAfter | src/ConstantTimeQueue.java:38-39 | Bypassing the successor of a spine node cuts exactly that successor from the spine and from the contents; tail moves back when it was the tail |
| ConstantTimeQueue.BypassLinks | src/ConstantTimeQueue.java:39 | After the bypass each remaining spine node links to the next remaining one |
| ConstantTimeQueue.CutDistinct | src/ConstantTimeQueue.java:39 | Taking one node out of a spine leaves no node listed twice |
| ConstantTimeQueue.RemoveAfterCutsFirst | src/ConstantTimeQueue.java:36-43 | From a spine node with no match so far, the scan returns whether `d` occurs and cuts out its first occurrence |
| ConstantTimeQueue.RemoveDeletesFirst | src/ConstantTimeQueue.java:29-45 | `remove(d)` returns `d in contents` and, when present, leaves the contents with only the first occurrence deleted |
| ConstantTimeQueue.ToString | src/ConstantTimeQueue.java:59-67 | The text is the elements' texts from head to tail joined with `", "` |
| ConstantTimeQueue.DistinctBelow | src/ConstantTimeQueue.java:36 | Distinct node indices below `n` number at most `n` |
| ConstantTimeQueue.SpineFitsHeap | src/ConstantTimeQueue.java:36 | The scan meets no more nodes than exist, so bounding it by the heap size never cuts it short |
| ConstantTimeQueue.SpineUnique | src/ConstantTimeQueue.java:62 | Following `next` from `head` gives exactly one spine, so the contents are determined by the object |
| ConstantTimeQueue.Step | src/ConstantTimeQueue.java:20-53 | Any call keeps the chain well formed and the size field unchanged |
| ConstantTimeQueue.StepRefines | src/ConstantTimeQueue.java:20-53 | Each call on the chain answers as the sequence queue does and leaves the same contents on a valid spine |
| ConstantTimeQueue.Run | src/ConstantTimeQueue.java:20-53 | Any sequence of calls keeps the chain well formed and gives one answer per call |
| ConstantTimeQueue.RunRefines | src/ConstantTimeQueue.java:20-53 | Any sequence of calls on the chain answers as the sequence queue does and leaves the same contents |
| ConstantTimeQueue.FromEmpty | src/ConstantTimeQueue.java:15-57 | From a new queue every sequence of calls behaves as the sequence queue, and `size()` still returns 0 |
| ConstantTimeQueue.SizeKept | src/ConstantTimeQueue.java:13 | No call writes the size field |
| ConstantTimeQueue.SizeIsStale | src/ConstantTimeQueue.java:55-57 | After one enqueue the queue holds one element, yet `size()` returns 0 |
| ConstantTimeQueue.EnqueueLetters | test/QueueTest.java:13-16 | Enqueueing 'a' to 'e' into a new queue leaves them in order on the chain |
| ConstantTimeQueue.ShowLetters | test/QueueTest.java:16 | Those elements, each shown as itself, join to "a, b, c, d, e" |
| LruCache.New | src/LRUCache.java:36-47 | Construction fails (the `new HashMap` throw) exactly when the capacity is negative; otherwise the new cache satisfies the invariant, maps nothing, and has no misses |
| LruCache.RemoveOldest | src/LRUCache.java:72-74 | Polls the head key and unmaps exactly it; every other mapping stays; on an empty queue nothing changes |
| LruCache.AddToCache | src/LRUCache.java:82-85 | Queues the key at the tail and maps it to the value; no other mapping changes |
| LruCache.MakeMostRecent | src/LRUCache.java:92-95 | The key moves behind all others, the others keep their order, and the map is untouched; the invariant is kept for a cached key |
| LruCache.Get | src/LRUCache.java:55-67 | A hit returns the stored value, costs no miss and moves the key last. A miss costs one and returns `provider(key)`. With no room nothing is cached. When full, exactly the oldest key is evicted before the new key is queued last. The invariant and agreement with the provider are kept |
| CacheRuns.GetAll | src/LRUCache.java:30 | Over a run of gets the miss count never decreases and grows by at most one per call |
| CacheRuns.GetAllKeepsValid | src/LRUCache.java:55-66 | Every run of gets keeps the invariant |
| CacheRuns.GetAllAgrees | src/LRUCache.java:58-65 | Starting from a cache that agrees with the provider, every get of a run returns `provider(key)`, hit or miss |
| CacheRuns.ZeroCapacityNeverCaches | src/LRUCache.java:61 | With capacity at most 0 every get is a miss returning `provider(key)`, and the queue and map stay empty |
| CacheRuns.RepeatedGetHits | src/LRUCache.java:56-58 | With room, a key just fetched is a hit on the next get: same value, no new miss |
| CacheRuns.MissStep | src/LRUCache.java:60-65 | A miss with room configured costs one and leaves the newest `capacity` keys queued, the new one last |
| CacheRuns.MissRun | src/LRUCache.java:60-65 | Distinct uncached keys miss on every get and leave the newest `capacity` of old and new keys queued |
| CacheRuns.HitRun | src/LRUCache.java:56-58 | Cached keys hit on every get: no miss, and the map is unchanged |
| CacheRuns.FreshPass | src/LRUCache.java:60-65 | A pass over uncached keys `lo..hi-1` counts one miss per call after each call |
| CacheRuns.CachedPass | src/LRUCache.java:56-58 | A pass over cached keys `lo..hi-1` counts no miss after any call and leaves the map unchanged |
| CacheRuns.NewestOfRange | src/LRUCache.java:62 | The newest `n` keys of `lo..hi-1` are `hi-n..hi-1` |
| CacheRuns.NewestOfSuffix | src/LRUCache.java:62 | After `|t|` evicting inserts of `t`, exactly `t` is queued |
| CacheRuns.KeepsAgreement | src/LRUCache.java:58-65 | A run of gets on a cache that holds only the provider's values still holds only the provider's values |
| CacheRuns.EmptyStartAgrees | src/LRUCache.java:60-65 | A run of gets from a cache with nothing queued leaves only the provider's values cached |
| CacheRuns.FirstPass | test/CacheTest.java:28-31 | From an empty cache of capacity C, getting `0..2C-1` has `i+1` misses after the `i`-th get and leaves `C..2C-1` queued; the cache then holds only the provider's values |
| CacheRuns.SecondPass | test/CacheTest.java:32-36 | Getting `C..2C-1` again keeps the miss count after every get; keys `0..C-1` remain uncached; agreement with the provider is kept |
| CacheRuns.ThirdPass | test/CacheTest.java:37-40 | Getting the evicted `0..C-1` misses on every get and leaves exactly them queued; agreement with the provider is kept |
| CacheRuns.FourthPass | test/CacheTest.java:41-44 | Getting `0..C-1` again keeps the miss count after every get |
| CacheRuns.EvictionScenario | test/CacheTest.java:26-36 | For any C > 0, the first two passes from a new cache give miss counts `i+1`, then `2C` after every get; both caches hold only the provider's values |
| CacheRuns.LeastRecentlyUsedScenario | test/CacheTest.java:26-44 | Continuing on the same cache, the last two passes give miss counts `2C+i+1`, then `3C` after every get; the final cache holds only the provider's values |
| CacheRuns.ScenarioValues | test/CacheTest.java:29 | From a new cache every get of any run returns the provider's value |

## Left out

- The `double` and `Math.ceil` computation of the `HashMap` initial capacity
  (src/LRUCache.java:38-44). Its value only affects rehashing. Its one effect on
  behaviour is the `IllegalArgumentException` that `new HashMap` throws for a
  negative capacity, and `LruCache.New` models that throw as `None`.
- `ConstantTimeQueue.Size` (`size()`, src/ConstantTimeQueue.java:55-57) is a
  plain field read, so it has no contract of its own. Its value is stated by
  `SizeKept`, `FromEmpty` and `SizeIsStale`: it stays 0 in every state.
- `LruCache.NumMisses` (`getNumMisses`) is a plain field read, so it has no
  contract of its own. Its growth is stated through `Get` and `GetAll`.
- `LruCache.Get`: `numMisses` is a Java `int`, which wraps after 2^31 - 1 misses.
  The model counts with `nat` and does not model the wrap-around.
- Exceptions thrown by the provider. The code does not handle them, and the
  provider is a pure function here.
- Null keys and elements. `equals` on a null element throws in the source;
  every element here is a value.
- `getFirst` and `getLast`. The queue tests call them, but the class does not
  define them. Those expectations are stated on the contents instead
  (`RemoveFront`, `RemoveBack`).
- The capacity-0 run of the cache test. Its loops do nothing when C = 0, so
  `EvictionScenario` and `LeastRecentlyUsedScenario` require C > 0.
  Zero-capacity behaviour is covered by `ZeroCapacityNeverCaches`.
- `ConstantTimeQueue.RemoveAfter`: the Java scan would loop forever on a cyclic
  chain. The model bounds the walk by the number of allocated nodes. A spine is
  no longer than the number of allocated nodes (`SpineFitsHeap`), so the bound
  never stops a scan along the spine early (`RemoveAfterCutsFirst`).
- Garbage collection. Unlinked nodes stay in the heap sequence.
- Complexity (the O(n) note on `remove`, the class name) and the JUnit harness.
- The `Cache` and `DataProvider` interfaces. Their source is not part of this
  model; the provider is a function parameter.

/**
 * `LRUCache<T, U>`: a read-through cache of fixed capacity that evicts the
 * least recently used key. The key queue (a `java.util.LinkedList`, oldest
 * key first) is a sequence, the `HashMap` is a map, and the data provider is
 * a pure function passed to every `Get`.
 */
module LruCache {
  import opened Wrappers
  import opened Sequences

  /** The fields of the object (src/LRUCache.java:18-30). */
  datatype Cache<K, V> = Cache(keys: seq<K>, cache: map<K, V>, capacity: int, misses: nat)

  /** How many keys the cache may hold: the capacity, or none when it is zero or negative. */
  function Room(capacity: int): nat
  {
    if capacity > 0 then capacity else 0
  }

  /**
   * The invariant the class keeps: each key queued once, the queued keys are
   * exactly the cached ones, and there are no more than the capacity allows.
   */
  ghost predicate Valid<K(!new), V>(c: Cache<K, V>) {
    && Distinct(c.keys)
    && (forall k :: k in c.keys <==> k in c.cache)
    && |c.keys| <= Room(c.capacity)
  }

  /** Every cached value is the one the provider gives for its key. */
  ghost predicate AgreesWith<K(!new), V>(c: Cache<K, V>, provider: K -> V) {
    forall k :: k in c.cache ==> c.cache[k] == provider(k)
  }

  /**
   * The constructor (src/LRUCache.java:36-47): nothing cached, no misses.
   * The map's initial capacity is `capacity / 0.75` rounded up, which is
   * negative exactly when `capacity` is, and `new HashMap` then throws
   * `IllegalArgumentException`: that throw is `None`.
   */
  function New<K(==, !new), V>(capacity: int): (r: Option<Cache<K, V>>)
    ensures r.None? <==> capacity < 0
    ensures r.Some? ==> Valid(r.value) && r.value.capacity == capacity && r.value.misses == 0
    ensures r.Some? ==> |r.value.cache| == 0
  {
    if capacity < 0 then None else Some(Cache([], map[], capacity, 0))
  }

  /** `getNumMisses` (src/LRUCache.java:102-104). */
  function NumMisses<K(==, !new), V>(c: Cache<K, V>): nat
  {
    c.misses
  }

  /**
   * `removeOldest` (src/LRUCache.java:72-74): poll the head of the key queue
   * and drop it from the map; polling an empty queue yields null, which no
   * map holds.
   */
  function RemoveOldest<K(==, !new), V>(c: Cache<K, V>): (r: Cache<K, V>)
    ensures r.capacity == c.capacity && r.misses == c.misses
    ensures |c.keys| == 0 ==> r == c
    ensures |c.keys| > 0 ==> r.keys == c.keys[1..] && c.keys[0] !in r.cache
    ensures forall k :: k in c.cache && (|c.keys| == 0 || k != c.keys[0]) ==> k in r.cache && r.cache[k] == c.cache[k]
    ensures forall k :: k in r.cache ==> k in c.cache
  {
    if |c.keys| == 0 then c
    else c.(keys := c.keys[1..], cache := c.cache - {c.keys[0]})
  }

  /** `addToCache` (src/LRUCache.java:82-85): queue the key at the tail and map it to the value. */
  function AddToCache<K(==, !new), V>(c: Cache<K, V>, key: K, value: V): (r: Cache<K, V>)
    ensures r.capacity == c.capacity && r.misses == c.misses
    ensures r.keys == c.keys + [key]
    ensures key in r.cache && r.cache[key] == value
    ensures forall k :: k != key ==> (k in r.cache <==> k in c.cache)
    ensures forall k :: k != key && k in c.cache ==> r.cache[k] == c.cache[k]
  {
    c.(keys := c.keys + [key], cache := c.cache[key := value])
  }

  /**
   * `makeMostRecentTransaction` (src/LRUCache.java:92-95): take the key out
   * of the queue (`LinkedList.remove` drops its first occurrence) and queue
   * it again at the tail.
   */
  function MakeMostRecent<K(==, !new), V>(c: Cache<K, V>, key: K): (r: Cache<K, V>)
    ensures r.capacity == c.capacity && r.misses == c.misses && r.cache == c.cache
    ensures Distinct(c.keys) ==> r.keys == Without(c.keys, key) + [key]
    ensures Valid(c) && key in c.cache ==> Valid(r)
  {
    RemoveFirstOfDistinct(c.keys, key);
    c.(keys := RemoveFirst(c.keys, key) + [key])
  }

  /** What `get` returns, with the cache it leaves behind. */
  datatype Got<K, V> = Got(value: V, state: Cache<K, V>)

  /**
   * `get` (src/LRUCache.java:55-67). A hit refreshes the key and returns the
   * stored value. A miss is counted; with no room the provider's value is
   * returned and nothing is cached; otherwise the oldest key is evicted when
   * the queue is full, and the provider's value is cached at the tail and
   * returned.
   */
  function Get<K(==, !new), V>(c: Cache<K, V>, key: K, provider: K -> V): (r: Got<K, V>)
    ensures r.state.capacity == c.capacity
    // a hit costs nothing, a miss costs exactly one
    ensures r.state.misses == if key in c.cache then c.misses else c.misses + 1
    // hit: the stored value, the map untouched, the key moved behind all others
    ensures key in c.cache ==> r.value == c.cache[key] && r.state.cache == c.cache
    ensures key in c.cache && Distinct(c.keys) ==> r.state.keys == Without(c.keys, key) + [key]
    // miss: the provider's value
    ensures key !in c.cache ==> r.value == provider(key)
    // miss without room: nothing is cached
    ensures key !in c.cache && c.capacity <= 0 ==> r.state.keys == c.keys && r.state.cache == c.cache
    // miss in a full cache: exactly the oldest key goes, the new key is queued last
    ensures key !in c.cache && 0 < c.capacity <= |c.keys| ==>
      && r.state.keys == c.keys[1..] + [key]
      && r.state.cache == (c.cache - {c.keys[0]})[key := provider(key)]
    // miss with room left: nothing goes, the new key is queued last
    ensures key !in c.cache && |c.keys| < c.capacity ==>
      && r.state.keys == c.keys + [key]
      && r.state.cache == c.cache[key := provider(key)]
    ensures Valid(c) ==> Valid(r.state)
    ensures AgreesWith(c, provider) ==> r.value == provider(key) && AgreesWith(r.state, provider)
  {
    if key in c.cache then
      var refreshed := MakeMostRecent(c, key);
      Got(refreshed.cache[key], refreshed)
    else
      var counted := c.(misses := c.misses + 1);
      if c.capacity <= 0 then Got(provider(key), counted)
      else
        var room := if |counted.keys| >= counted.capacity then RemoveOldest(counted) else counted;
        var value := provider(key);
        Got(value, AddToCache(room, key, value))
  }
}

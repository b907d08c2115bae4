/**
 * Sequences of `get` calls on an `LruCache`: miss accounting over a run, the
 * zero-capacity cache, and the scenario of test/CacheTest.java proved for
 * every capacity.
 */
module CacheRuns {
  import opened Sequences
  import opened LruCache

  /** The values returned by a run of `get` calls, and the cache after it. */
  datatype Gots<K, V> = Gots(values: seq<V>, state: Cache<K, V>)

  /**
   * `get` on each key of `ks` in turn. Misses never decrease and grow by at
   * most one per call.
   */
  function GetAll<K(==, !new), V>(c: Cache<K, V>, ks: seq<K>, provider: K -> V): (r: Gots<K, V>)
    ensures |r.values| == |ks| && r.state.capacity == c.capacity
    ensures c.misses <= r.state.misses <= c.misses + |ks|
    decreases |ks|
  {
    if |ks| == 0 then Gots([], c)
    else
      var first := Get(c, ks[0], provider);
      var rest := GetAll(first.state, ks[1..], provider);
      Gots([first.value] + rest.values, rest.state)
  }

  /** Every run of calls keeps the invariant. */
  lemma {:induction false} GetAllKeepsValid<K(!new), V>(c: Cache<K, V>, ks: seq<K>, provider: K -> V)
    requires Valid(c)
    ensures Valid(GetAll(c, ks, provider).state)
    decreases |ks|
  {
    if |ks| > 0 {
      GetAllKeepsValid(Get(c, ks[0], provider).state, ks[1..], provider);
    }
  }

  /**
   * Once the cached values agree with the provider they keep agreeing, and
   * every call of a run returns the provider's value, hit or miss.
   */
  lemma {:induction false} GetAllAgrees<K(!new), V>(c: Cache<K, V>, ks: seq<K>, provider: K -> V)
    requires AgreesWith(c, provider)
    ensures AgreesWith(GetAll(c, ks, provider).state, provider)
    ensures forall i :: 0 <= i < |ks| ==> GetAll(c, ks, provider).values[i] == provider(ks[i])
    decreases |ks|
  {
    if |ks| > 0 {
      var first := Get(c, ks[0], provider);
      GetAllAgrees(first.state, ks[1..], provider);
      var rest := GetAll(first.state, ks[1..], provider);
      assert GetAll(c, ks, provider).values == [first.value] + rest.values;
    }
  }

  /**
   * With no room every call is a miss answered by the provider, and nothing is
   * ever kept between calls.
   */
  lemma {:induction false} ZeroCapacityNeverCaches<K(!new), V>(c: Cache<K, V>, ks: seq<K>, provider: K -> V)
    requires Valid(c) && c.capacity <= 0
    ensures var r := GetAll(c, ks, provider);
      && r.state.misses == c.misses + |ks|
      && r.state.keys == [] && r.state.cache == map[]
      && forall i :: 0 <= i < |ks| ==> r.values[i] == provider(ks[i])
    decreases |ks|
  {
    assert c.keys == [];
    if |ks| > 0 {
      ZeroCapacityNeverCaches(Get(c, ks[0], provider).state, ks[1..], provider);
    }
  }

  /** A key just fetched is a hit on the next call: same value, no further miss. */
  lemma RepeatedGetHits<K(!new), V>(c: Cache<K, V>, key: K, provider: K -> V)
    requires Valid(c) && c.capacity > 0
    ensures var first := Get(c, key, provider);
      var second := Get(first.state, key, provider);
      && key in first.state.cache
      && second.value == first.value
      && second.state.misses == first.state.misses
  {
  }

  /** One miss with room configured: the new key joins the newest `capacity` keys. */
  lemma MissStep<K(!new), V>(c: Cache<K, V>, key: K, provider: K -> V)
    requires 0 < c.capacity && |c.keys| <= c.capacity && key !in c.cache
    ensures var next := Get(c, key, provider).state;
      && |next.keys| <= next.capacity
      && next.misses == c.misses + 1
      && next.keys == Newest(c.keys + [key], c.capacity)
      && forall k :: k in next.cache ==> k in c.cache || k == key
  {
    var next := Get(c, key, provider).state;
    assert next.keys == Newest(c.keys + [key], c.capacity) by {
      if |c.keys| >= c.capacity {
        assert next.keys == c.keys[1..] + [key];
        assert (c.keys + [key])[1..] == c.keys[1..] + [key];
      }
    }
    assert forall k :: k in next.cache ==> k in c.cache || k == key by {
      if |c.keys| >= c.capacity {
        assert next.cache == (c.cache - {c.keys[0]})[key := provider(key)];
      } else {
        assert next.cache == c.cache[key := provider(key)];
      }
    }
  }

  /**
   * Fresh, distinct keys are all misses, and afterwards the queue holds the
   * newest `capacity` of the old keys followed by the new ones.
   */
  lemma {:induction false} MissRun<K(!new), V>(c: Cache<K, V>, ks: seq<K>, provider: K -> V)
    requires 0 < c.capacity && |c.keys| <= c.capacity && Distinct(ks)
    requires forall i :: 0 <= i < |ks| ==> ks[i] !in c.cache
    ensures GetAll(c, ks, provider).state.misses == c.misses + |ks|
    ensures GetAll(c, ks, provider).state.keys == Newest(c.keys + ks, c.capacity)
    decreases |ks|
  {
    if |ks| > 0 {
      var k, rest := ks[0], ks[1..];
      var next := Get(c, k, provider).state;
      var tail := GetAll(next, rest, provider).state;
      assert GetAll(c, ks, provider).state == tail;
      MissStep(c, k, provider);
      assert Distinct(rest) && forall i :: 0 <= i < |rest| ==> rest[i] !in next.cache by {
        forall i | 0 <= i < |rest| ensures rest[i] !in next.cache {
          assert rest[i] == ks[i + 1] && ks[i + 1] != ks[0];
        }
      }
      MissRun(next, rest, provider);
      assert ks == [k] + rest;
      NewestOfNewest(c.keys, k, rest, c.capacity);
    } else {
      assert c.keys + ks == c.keys;
      assert GetAll(c, ks, provider) == Gots([], c);
      assert Newest(c.keys, c.capacity) == c.keys;
    }
  }

  /** Keys already cached are all hits: no miss, and the map is left as it was. */
  lemma {:induction false} HitRun<K(!new), V>(c: Cache<K, V>, ks: seq<K>, provider: K -> V)
    requires forall i :: 0 <= i < |ks| ==> ks[i] in c.cache
    ensures GetAll(c, ks, provider).state.misses == c.misses
    ensures GetAll(c, ks, provider).state.cache == c.cache
    decreases |ks|
  {
    if |ks| > 0 {
      HitRun(Get(c, ks[0], provider).state, ks[1..], provider);
    }
  }

  /** A pass over keys `lo .. hi-1`, none of them cached: one miss per call. */
  lemma FreshPass<V>(c: Cache<int, V>, lo: int, hi: int, provider: int -> V)
    requires 0 < c.capacity && |c.keys| <= c.capacity && lo <= hi
    requires forall k :: lo <= k < hi ==> k !in c.cache
    ensures forall j :: lo <= j <= hi ==> GetAll(c, Range(lo, j), provider).state.misses == c.misses + (j - lo)
    ensures GetAll(c, Range(lo, hi), provider).state.keys == Newest(c.keys + Range(lo, hi), c.capacity)
  {
    forall j | lo <= j <= hi
      ensures GetAll(c, Range(lo, j), provider).state.misses == c.misses + (j - lo)
    {
      MissRun(c, Range(lo, j), provider);
    }
    MissRun(c, Range(lo, hi), provider);
  }

  /** A pass over keys `lo .. hi-1`, all of them cached: no miss, and the map is unchanged. */
  lemma CachedPass<V>(c: Cache<int, V>, lo: int, hi: int, provider: int -> V)
    requires lo <= hi
    requires forall k :: lo <= k < hi ==> k in c.cache
    ensures forall j :: lo <= j <= hi ==> GetAll(c, Range(lo, j), provider).state.misses == c.misses
    ensures GetAll(c, Range(lo, hi), provider).state.cache == c.cache
  {
    forall j | lo <= j <= hi
      ensures GetAll(c, Range(lo, j), provider).state.misses == c.misses
    {
      HitRun(c, Range(lo, j), provider);
    }
    HitRun(c, Range(lo, hi), provider);
  }

  /** The last `n` of `lo .. hi-1` are exactly `hi-n .. hi-1`. */
  lemma NewestOfRange(lo: int, hi: int, n: nat)
    requires 0 < n <= hi - lo
    ensures Newest(Range(lo, hi), n) == Range(hi - n, hi)
  {
    var s := Range(lo, hi);
    assert s[|s| - n..] == Range(hi - n, hi);
  }

  /** The last `|t|` elements of `s + t` are `t`. */
  lemma NewestOfSuffix<T>(s: seq<T>, t: seq<T>)
    requires 0 < |t|
    ensures Newest(s + t, |t|) == t
  {
    var u := s + t;
    assert u[|u| - |t|..] == t;
  }

  /**
   * First pass of the test: from an empty cache of capacity `C`, getting
   * `0 .. 2C-1` misses on every call and leaves `C .. 2C-1` queued.
   */
  lemma FirstPass<V>(c: Cache<int, V>, provider: int -> V) returns (r: Cache<int, V>)
    requires Valid(c) && 0 < c.capacity && c.keys == []
    ensures r == GetAll(c, Range(0, 2 * c.capacity), provider).state
    ensures forall j :: 0 <= j <= 2 * c.capacity ==> GetAll(c, Range(0, j), provider).state.misses == c.misses + j
    ensures Valid(r) && r.capacity == c.capacity && r.misses == c.misses + 2 * c.capacity
    ensures r.keys == Range(c.capacity, 2 * c.capacity)
    ensures AgreesWith(r, provider)
  {
    var capacity := c.capacity;
    r := GetAll(c, Range(0, 2 * capacity), provider).state;
    assert forall k :: k !in c.cache by {
      forall k ensures k !in c.cache {
        assert k !in c.keys;
      }
    }
    FreshPass(c, 0, 2 * capacity, provider);
    assert c.keys + Range(0, 2 * capacity) == Range(0, 2 * capacity);
    NewestOfRange(0, 2 * capacity, capacity);
    GetAllKeepsValid(c, Range(0, 2 * capacity), provider);
    EmptyStartAgrees(c, Range(0, 2 * capacity), provider);
  }

  /** A run keeps agreement with the provider whenever the cache starts in agreement. */
  lemma KeepsAgreement<K(!new), V>(c: Cache<K, V>, ks: seq<K>, provider: K -> V)
    ensures AgreesWith(c, provider) ==> AgreesWith(GetAll(c, ks, provider).state, provider)
  {
    if AgreesWith(c, provider) {
      GetAllAgrees(c, ks, provider);
    }
  }

  /** A run that starts with nothing cached returns only the provider's values. */
  lemma EmptyStartAgrees<K(!new), V>(c: Cache<K, V>, ks: seq<K>, provider: K -> V)
    requires Valid(c) && c.keys == []
    ensures AgreesWith(GetAll(c, ks, provider).state, provider)
  {
    assert forall k :: k !in c.cache by {
      forall k ensures k !in c.cache {
        assert k !in c.keys;
      }
    }
    GetAllAgrees(c, ks, provider);
  }

  /**
   * Second pass: with `C .. 2C-1` queued, getting them again misses on none,
   * and keys `0 .. C-1` are still absent afterwards.
   */
  lemma SecondPass<V>(c: Cache<int, V>, provider: int -> V) returns (r: Cache<int, V>)
    requires Valid(c) && 0 < c.capacity && c.keys == Range(c.capacity, 2 * c.capacity)
    ensures r == GetAll(c, Range(c.capacity, 2 * c.capacity), provider).state
    ensures forall j :: c.capacity <= j <= 2 * c.capacity ==>
      GetAll(c, Range(c.capacity, j), provider).state.misses == c.misses
    ensures Valid(r) && r.capacity == c.capacity && r.misses == c.misses
    ensures forall k :: 0 <= k < r.capacity ==> k !in r.cache
    ensures AgreesWith(c, provider) ==> AgreesWith(r, provider)
  {
    var capacity := c.capacity;
    r := GetAll(c, Range(capacity, 2 * capacity), provider).state;
    assert forall k :: capacity <= k < 2 * capacity ==> k in c.cache by {
      forall k | capacity <= k < 2 * capacity ensures k in c.cache {
        assert c.keys[k - capacity] == k;
      }
    }
    assert forall k :: 0 <= k < capacity ==> k !in c.cache by {
      forall k | 0 <= k < capacity ensures k !in c.cache {
        assert k !in c.keys;
      }
    }
    CachedPass(c, capacity, 2 * capacity, provider);
    GetAllKeepsValid(c, Range(capacity, 2 * capacity), provider);
    KeepsAgreement(c, Range(capacity, 2 * capacity), provider);
  }

  /**
   * Third pass: with `0 .. C-1` absent and the invariant holding, getting
   * them misses on every call and leaves exactly them queued.
   */
  lemma ThirdPass<V>(c: Cache<int, V>, provider: int -> V) returns (r: Cache<int, V>)
    requires Valid(c) && 0 < c.capacity
    requires forall k :: 0 <= k < c.capacity ==> k !in c.cache
    ensures r == GetAll(c, Range(0, c.capacity), provider).state
    ensures forall j :: 0 <= j <= c.capacity ==>
      GetAll(c, Range(0, j), provider).state.misses == c.misses + j
    ensures Valid(r) && r.capacity == c.capacity && r.misses == c.misses + c.capacity
    ensures r.keys == Range(0, c.capacity)
    ensures AgreesWith(c, provider) ==> AgreesWith(r, provider)
  {
    r := GetAll(c, Range(0, c.capacity), provider).state;
    FreshPass(c, 0, c.capacity, provider);
    NewestOfSuffix(c.keys, Range(0, c.capacity));
    GetAllKeepsValid(c, Range(0, c.capacity), provider);
    KeepsAgreement(c, Range(0, c.capacity), provider);
  }

  /** Fourth pass: with `0 .. C-1` queued and the invariant holding, getting them again misses on none. */
  lemma FourthPass<V>(c: Cache<int, V>, provider: int -> V)
    requires Valid(c) && 0 < c.capacity && c.keys == Range(0, c.capacity)
    ensures forall j :: 0 <= j <= c.capacity ==> GetAll(c, Range(0, j), provider).state.misses == c.misses
  {
    forall k | 0 <= k < c.capacity ensures k in c.cache {
      assert c.keys[k] == k;
    }
    CachedPass(c, 0, c.capacity, provider);
  }

  /**
   * The first half of test/CacheTest.java:26-44 for any capacity `C` and any
   * provider: getting `0 .. 2C-1` misses on every call, and getting
   * `C .. 2C-1` again misses on none; keys `0 .. C-1` have been evicted.
   */
  lemma EvictionScenario<V>(capacity: nat, provider: int -> V) returns (r1: Cache<int, V>, r2: Cache<int, V>)
    requires 0 < capacity
    ensures r1 == GetAll(New<int, V>(capacity).value, Range(0, 2 * capacity), provider).state
    ensures r2 == GetAll(r1, Range(capacity, 2 * capacity), provider).state
    ensures forall j :: 0 <= j <= 2 * capacity ==> GetAll(New<int, V>(capacity).value, Range(0, j), provider).state.misses == j
    ensures forall j :: capacity <= j <= 2 * capacity ==> GetAll(r1, Range(capacity, j), provider).state.misses == 2 * capacity
    ensures Valid(r2) && r2.capacity == capacity && r2.misses == 2 * capacity
    ensures forall k :: 0 <= k < capacity ==> k !in r2.cache
    ensures AgreesWith(r1, provider) && AgreesWith(r2, provider)
  {
    r1 := FirstPass(New<int, V>(capacity).value, provider);
    r2 := SecondPass(r1, provider);
  }

  /**
   * test/CacheTest.java:26-44 for any capacity `C` and any provider: after
   * the first half, getting `0 .. C-1` misses on every call and getting them
   * again misses on none. Each count is stated after every call, as the test
   * checks it.
   */
  lemma LeastRecentlyUsedScenario<V>(capacity: nat, provider: int -> V)
      returns (r1: Cache<int, V>, r2: Cache<int, V>, r3: Cache<int, V>)
    requires 0 < capacity
    ensures r1 == GetAll(New<int, V>(capacity).value, Range(0, 2 * capacity), provider).state
    ensures r2 == GetAll(r1, Range(capacity, 2 * capacity), provider).state
    ensures r3 == GetAll(r2, Range(0, capacity), provider).state
    ensures forall j :: 0 <= j <= capacity ==> GetAll(r2, Range(0, j), provider).state.misses == 2 * capacity + j
    ensures forall j :: 0 <= j <= capacity ==> GetAll(r3, Range(0, j), provider).state.misses == 3 * capacity
    ensures AgreesWith(r3, provider)
  {
    r1, r2 := EvictionScenario(capacity, provider);
    r3 := ThirdPass(r2, provider);
    FourthPass(r3, provider);
  }

  /** Every get of the test returns the provider's value, since an empty cache agrees with any provider. */
  lemma ScenarioValues<V>(capacity: nat, ks: seq<int>, provider: int -> V)
    ensures forall i :: 0 <= i < |ks| ==> GetAll(New<int, V>(capacity).value, ks, provider).values[i] == provider(ks[i])
  {
    GetAllAgrees(New<int, V>(capacity).value, ks, provider);
  }
}

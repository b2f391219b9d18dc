/**
 * The hit/miss accounting wrapper around the LRU cache.  The shared mutex and
 * the atomic counters are not modelled: each call is one sequential step that
 * delegates to the inner cache and updates the two counters.
 */
module ThreadSafeLru {
  import opened Common
  import opened Lru

  /** How many entries of an outcome log equal b (true stands for a hit). */
  function Count(log: seq<bool>, b: bool): nat
  {
    if log == [] then 0
    else Count(log[..|log| - 1], b) + (if log[|log| - 1] == b then 1 else 0)
  }

  /** Every get is either a hit or a miss. */
  lemma {:induction false} CountTotal(log: seq<bool>)
    ensures Count(log, true) + Count(log, false) == |log|
  {
    if log != [] {
      CountTotal(log[..|log| - 1]);
    }
  }

  class ThreadSafeLruCache<K(==), V> {
    /** internal_cache_ */
    const inner: LruCache<K, V>
    /** hit_count_ and miss_count_ */
    var hits: nat
    var misses: nat
    /** Outcome of each get since construction or the last reset_stats: true for a hit. */
    ghost var gets: seq<bool>

    ghost predicate Valid()
      reads this, inner
    {
      && inner.Valid()
      && hits == Count(gets, true)
      && misses == Count(gets, false)
    }

    /** Constructor for a positive capacity; Create models the zero-capacity throw. */
    constructor (capacity: nat)
      requires 0 < capacity
      ensures Valid() && fresh(inner)
      ensures inner.cap == capacity && inner.entries == [] && hits == 0 && misses == 0
    {
      inner := new LruCache(capacity);
      hits, misses := 0, 0;
      gets := [];
    }

    /** The inner cache's constructor throws invalid_argument for capacity 0, and so does this one. */
    static method Create(capacity: nat) returns (r: Result<ThreadSafeLruCache<K, V>>)
      ensures r.Err? <==> capacity == 0
      ensures r.Err? ==> r.error == InvalidArgument
      ensures r.Ok? ==> fresh(r.value) && fresh(r.value.inner) && r.value.Valid()
      ensures r.Ok? ==> r.value.inner.cap == capacity && r.value.inner.entries == []
      ensures r.Ok? ==> r.value.hits == 0 && r.value.misses == 0
    {
      if capacity == 0 {
        return Err(InvalidArgument);
      }
      var c := new ThreadSafeLruCache(capacity);
      return Ok(c);
    }

    /** Delegates to the inner get and counts the outcome; a miss is still reported as out_of_range. */
    method Get(key: K) returns (r: Result<V>)
      requires Valid()
      modifies this, inner
      ensures Valid()
      ensures r.Err? <==> key !in old(inner.index)
      ensures r.Err? ==> r.error == OutOfRange
      ensures r.Ok? ==> Lookup(old(inner.entries), key) == Some(r.value)
      ensures inner.entries == Touch(old(inner.entries), key) && inner.index == old(inner.index)
      ensures r.Ok? ==> hits == old(hits) + 1 && misses == old(misses)
      ensures r.Err? ==> misses == old(misses) + 1 && hits == old(hits)
      ensures gets == old(gets) + [r.Ok?]
      ensures hits + misses == |gets|
    {
      r := inner.Get(key);
      if r.Ok? {
        hits := hits + 1;
      } else {
        misses := misses + 1;
      }
      gets := gets + [r.Ok?];
      assert gets[..|gets| - 1] == old(gets);
      CountTotal(gets);
    }

    /** Delegates to the inner put; neither counter changes. */
    method Put(key: K, value: V)
      requires Valid()
      modifies inner
      ensures Valid()
      ensures inner.entries == PutList(old(inner.entries), inner.cap, key, value)
      ensures hits == old(hits) && misses == old(misses) && gets == old(gets)
    {
      inner.Put(key, value);
    }

    /** reset_stats: both counters restart from zero; the cache is untouched. */
    method ResetStats()
      requires Valid()
      modifies this
      ensures Valid()
      ensures hits == 0 && misses == 0 && gets == []
      ensures inner.entries == old(inner.entries) && inner.index == old(inner.index)
    {
      hits, misses := 0, 0;
      gets := [];
    }

    /** get_hit_count: the gets since the last reset that found their key. */
    function HitCount(): (n: nat)
      reads this, inner
      requires Valid()
      ensures n == Count(gets, true) && n <= |gets|
    {
      CountTotal(gets);
      hits
    }

    /** get_miss_count: the gets since the last reset that did not find their key. */
    function MissCount(): (n: nat)
      reads this, inner
      requires Valid()
      ensures n == Count(gets, false) && n <= |gets|
    {
      CountTotal(gets);
      misses
    }

    /** contains: the inner cache's answer. */
    function Contains(key: K): (b: bool)
      reads this, inner
      requires Valid()
      ensures b == inner.Contains(key)
      ensures b <==> exists i :: 0 <= i < |inner.entries| && inner.entries[i].0 == key
    {
      inner.Contains(key)
    }

    /** size: the inner cache's answer, never above its capacity. */
    function Size(): (n: nat)
      reads this, inner
      requires Valid()
      ensures n == inner.Size() && n <= inner.cap
    {
      inner.Size()
    }
  }
}

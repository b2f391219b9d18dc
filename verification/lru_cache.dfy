/**
 * The single-threaded LRU cache: a recency list of (key, value) nodes, most
 * recently used at the front, and an index from keys to nodes.  The list is a
 * sequence and the index is the set of keys it maps; the pure functions below
 * say what each list operation does, and the class applies them in place.
 */
module Lru {
  import opened Common

  /** The keys held by a recency list. */
  function KeysOf<K(==), V>(s: seq<(K, V)>): (ks: set<K>)
    ensures forall i :: 0 <= i < |s| ==> s[i].0 in ks
    ensures forall k :: k in ks ==> exists i :: 0 <= i < |s| && s[i].0 == k
  {
    if s == [] then {} else {s[0].0} + KeysOf(s[1..])
  }

  /** No two nodes of the list carry the same key. */
  predicate DistinctKeys<K(==), V>(s: seq<(K, V)>) {
    forall i, j :: 0 <= i < j < |s| ==> s[i].0 != s[j].0
  }

  /** Where the node for key k sits: what the index's iterator points to. */
  function Position<K(==), V>(s: seq<(K, V)>, k: K): (i: nat)
    requires k in KeysOf(s)
    ensures i < |s| && s[i].0 == k
    ensures forall j :: 0 <= j < i ==> s[j].0 != k
  {
    if s[0].0 == k then 0 else 1 + Position(s[1..], k)
  }

  /** The value stored under k, if k is cached. */
  function Lookup<K(==), V>(s: seq<(K, V)>, k: K): (r: Option<V>)
    ensures r.Some? <==> k in KeysOf(s)
    ensures DistinctKeys(s) ==> forall i :: 0 <= i < |s| && s[i].0 == k ==> r == Some(s[i].1)
  {
    if k in KeysOf(s) then Some(s[Position(s, k)].1) else None
  }

  /** The list after the node at position i is spliced to the front. */
  function Splice<K(==), V>(s: seq<(K, V)>, i: nat): (r: seq<(K, V)>)
    requires i < |s|
    ensures |r| == |s| && r[0] == s[i]
    ensures forall j :: 0 <= j < i ==> r[j + 1] == s[j]
    ensures forall j :: i < j < |s| ==> r[j] == s[j]
    ensures KeysOf(r) == KeysOf(s)
    ensures DistinctKeys(s) ==> DistinctKeys(r)
  {
    var r := [s[i]] + s[..i] + s[i + 1..];
    assert SplicedFrom(s, i, r);
    SpliceKeys(s, i, r);
    assert DistinctKeys(s) ==> DistinctKeys(r) by {
      if DistinctKeys(s) { SpliceDistinct(s, i, r); }
    }
    r
  }

  /** Where the node now at position j of a list spliced at i was before. */
  function SpliceOrigin(i: nat, j: nat): (o: nat)
    ensures j == 0 ==> o == i
    ensures 0 < j <= i ==> o == j - 1
    ensures i < j ==> o == j
  {
    if j == 0 then i else if j <= i then j - 1 else j
  }

  /** r holds the nodes of s with the one at position i moved to the front. */
  ghost predicate SplicedFrom<K, V>(s: seq<(K, V)>, i: nat, r: seq<(K, V)>) {
    i < |s| == |r| && forall j :: 0 <= j < |r| ==> r[j] == s[SpliceOrigin(i, j)]
  }

  /** Splicing one node to the front neither adds nor loses a key. */
  lemma SpliceKeys<K, V>(s: seq<(K, V)>, i: nat, r: seq<(K, V)>)
    requires SplicedFrom(s, i, r)
    ensures KeysOf(r) == KeysOf(s)
  {
    forall k | k in KeysOf(s) ensures k in KeysOf(r) {
      var j :| 0 <= j < |s| && s[j].0 == k;
      var p := if j == i then 0 else if j < i then j + 1 else j;
      assert r[p] == s[j];
    }
    forall k | k in KeysOf(r) ensures k in KeysOf(s) {
      var j :| 0 <= j < |r| && r[j].0 == k;
      assert r[j] == s[SpliceOrigin(i, j)];
    }
  }

  /** Splicing one node to the front duplicates no key. */
  lemma SpliceDistinct<K, V>(s: seq<(K, V)>, i: nat, r: seq<(K, V)>)
    requires SplicedFrom(s, i, r) && DistinctKeys(s)
    ensures DistinctKeys(r)
  {
    forall p, q | 0 <= p < q < |r| ensures r[p].0 != r[q].0 {
      assert r[p] == s[SpliceOrigin(i, p)] && r[q] == s[SpliceOrigin(i, q)];
    }
  }

  /** The list after its tail, the least recently used node, is dropped (a no-op on an empty list). */
  function Evicted<K(==), V>(s: seq<(K, V)>): (r: seq<(K, V)>)
    ensures s == [] ==> r == []
    ensures s != [] ==> r + [s[|s| - 1]] == s
    ensures DistinctKeys(s) ==> DistinctKeys(r)
    ensures DistinctKeys(s) && s != [] ==> KeysOf(r) == KeysOf(s) - {s[|s| - 1].0}
  {
    if s == [] then s
    else
      var r := s[..|s| - 1];
      assert r + [s[|s| - 1]] == s;
      KeysOfAppend(r, [s[|s| - 1]]);
      r
  }

  /** The effect of get on the list: a cached key moves to the front, otherwise nothing changes. */
  function Touch<K(==), V>(s: seq<(K, V)>, k: K): (r: seq<(K, V)>)
  {
    if k in KeysOf(s) then Splice(s, Position(s, k)) else s
  }

  /** The effect of put on the list of a cache of capacity cap. */
  function PutList<K(==), V>(s: seq<(K, V)>, cap: nat, k: K, v: V): (r: seq<(K, V)>)
  {
    if k in KeysOf(s) then
      var i := Position(s, k);
      Splice(s[i := (k, v)], i)
    else
      [(k, v)] + (if |s| >= cap then Evicted(s) else s)
  }

  lemma {:induction false} KeysOfAppend<K, V>(a: seq<(K, V)>, b: seq<(K, V)>)
    ensures KeysOf(a + b) == KeysOf(a) + KeysOf(b)
  {
    if a != [] {
      assert (a + b)[1..] == a[1..] + b;
      KeysOfAppend(a[1..], b);
    } else {
      assert a + b == b;
    }
  }

  /** With distinct keys, the index has exactly one key per node. */
  lemma {:induction false} DistinctKeysCard<K, V>(s: seq<(K, V)>)
    requires DistinctKeys(s)
    ensures |KeysOf(s)| == |s|
  {
    if s != [] {
      DistinctKeysCard(s[1..]);
      assert forall j :: 0 <= j < |s[1..]| ==> s[1..][j].0 != s[0].0 by {
        forall j | 0 <= j < |s[1..]| ensures s[1..][j].0 != s[0].0 {
          assert s[1..][j] == s[j + 1];
        }
      }
    }
  }

  /** Overwriting a node's value in place keeps the keys and their distinctness. */
  lemma UpdateValue<K, V>(s: seq<(K, V)>, i: nat, v: V)
    requires i < |s|
    ensures KeysOf(s[i := (s[i].0, v)]) == KeysOf(s)
    ensures DistinctKeys(s) ==> DistinctKeys(s[i := (s[i].0, v)])
  {
    var t := s[i := (s[i].0, v)];
    forall k | k in KeysOf(t) ensures k in KeysOf(s) {
      var j :| 0 <= j < |t| && t[j].0 == k;
      assert s[j].0 == k;
    }
    forall k | k in KeysOf(s) ensures k in KeysOf(t) {
      var j :| 0 <= j < |s| && s[j].0 == k;
      assert t[j].0 == k;
    }
  }

  /**
   * put keeps the cache invariant: the new pair is at the front, the size stays
   * within the capacity, keys stay distinct, and the key set gains k, losing
   * the old tail's key exactly when a new key meets a full cache.
   */
  lemma PutInvariant<K, V>(s: seq<(K, V)>, cap: nat, k: K, v: V)
    requires 0 < cap && |s| <= cap && DistinctKeys(s)
    ensures var r := PutList(s, cap, k, v);
      && r[0] == (k, v)
      && |r| <= cap
      && DistinctKeys(r)
      && KeysOf(r) == if k in KeysOf(s) || |s| < cap then KeysOf(s) + {k}
                      else KeysOf(s) - {s[|s| - 1].0} + {k}
  {
    if k in KeysOf(s) {
      var i := Position(s, k);
      assert s[i := (k, v)] == s[i := (s[i].0, v)];
      UpdateValue(s, i, v);
    } else if |s| >= cap {
      PrependNew(Evicted(s), k, v);
    } else {
      PrependNew(s, k, v);
    }
  }

  /** Putting a node with a new key in front of a list adds exactly that key. */
  lemma PrependNew<K, V>(s: seq<(K, V)>, k: K, v: V)
    requires k !in KeysOf(s)
    ensures KeysOf([(k, v)] + s) == KeysOf(s) + {k}
    ensures DistinctKeys(s) ==> DistinctKeys([(k, v)] + s)
  {
    assert ([(k, v)] + s)[1..] == s;
  }

  /** How put changes the size: it grows by one only for a new key in a cache that is not full. */
  lemma PutSize<K, V>(s: seq<(K, V)>, cap: nat, k: K, v: V)
    requires 0 < cap && |s| <= cap
    ensures |PutList(s, cap, k, v)| == if k in KeysOf(s) || |s| == cap then |s| else |s| + 1
  {
  }

  /** After put(k, v), get(k) returns v and leaves the list as put left it. */
  lemma PutThenGet<K, V>(s: seq<(K, V)>, cap: nat, k: K, v: V)
    ensures Lookup(PutList(s, cap, k, v), k) == Some(v)
    ensures Touch(PutList(s, cap, k, v), k) == PutList(s, cap, k, v)
  {
    var r := PutList(s, cap, k, v);
    assert r[0] == (k, v);
    assert Position(r, k) == 0;
    assert Splice(r, 0) == r;
  }

  /** put(k, v) leaves the value of every other key that is still cached unchanged. */
  lemma PutKeepsOthers<K, V>(s: seq<(K, V)>, cap: nat, k: K, v: V, other: K)
    requires 0 < cap && |s| <= cap && DistinctKeys(s)
    requires other != k && other in KeysOf(PutList(s, cap, k, v))
    ensures Lookup(PutList(s, cap, k, v), other) == Lookup(s, other)
  {
    var r := PutList(s, cap, k, v);
    PutInvariant(s, cap, k, v);
    var j := Position(r, other);
    if k in KeysOf(s) {
      var i := Position(s, k);
      var t := s[i := (k, v)];
      if j == 0 {
      } else if j <= i {
        assert r[j] == t[j - 1] == s[j - 1];
      } else {
        assert r[j] == t[j] == s[j];
      }
    } else {
      var rest := if |s| >= cap then Evicted(s) else s;
      assert r == [(k, v)] + rest;
      assert r[j] == rest[j - 1] == s[j - 1];
    }
  }

  /** get of a cached key returns its value and moves it to the front; the size is unchanged. */
  lemma TouchFront<K, V>(s: seq<(K, V)>, k: K)
    requires DistinctKeys(s) && k in KeysOf(s)
    ensures var r := Touch(s, k);
      && |r| == |s| && DistinctKeys(r) && KeysOf(r) == KeysOf(s)
      && r[0].0 == k && Some(r[0].1) == Lookup(s, k)
  {
  }

  /**
   * Recency is tracked by a clock that counts uses (a get that finds its key,
   * or a put) and a map from each key used so far to the clock reading at its
   * last use.  Every recorded reading is earlier than the clock.
   */
  ghost predicate Stamped<K>(last: map<K, nat>, clock: nat) {
    forall k :: k in last ==> last[k] < clock
  }

  /** The clock reading at k's last use, or 0 for a key never used. */
  ghost function Rank<K>(last: map<K, nat>, k: K): nat {
    if k in last then last[k] else 0
  }

  /**
   * The list is in recency order: every cached key has been used, and a node
   * nearer the front was used more recently than every node behind it.
   */
  ghost predicate RecencyOrdered<K, V>(s: seq<(K, V)>, last: map<K, nat>) {
    && (forall i :: 0 <= i < |s| ==> s[i].0 in last)
    && (forall i, j {:trigger Rank(last, s[i].0), Rank(last, s[j].0)} ::
          0 <= i < j < |s| ==> Rank(last, s[j].0) < Rank(last, s[i].0))
  }

  /** lru has been used, and before every other key of keys. */
  ghost predicate LeastRecent<K>(last: map<K, nat>, lru: K, keys: set<K>) {
    lru in last && forall x :: x in keys && x != lru ==> x in last && last[lru] < last[x]
  }

  /** A list in recency order carries each key once. */
  lemma RecencyDistinct<K, V>(s: seq<(K, V)>, last: map<K, nat>)
    requires RecencyOrdered(s, last)
    ensures DistinctKeys(s)
  {
    forall i, j | 0 <= i < j < |s| ensures s[i].0 != s[j].0 {
      assert Rank(last, s[j].0) < Rank(last, s[i].0);
    }
  }

  /** Splicing node i to the front and recording a use of its key now keeps the list in recency order. */
  lemma SpliceRecency<K, V>(s: seq<(K, V)>, last: map<K, nat>, clock: nat, i: nat)
    requires i < |s| && RecencyOrdered(s, last) && Stamped(last, clock)
    ensures RecencyOrdered(Splice(s, i), last[s[i].0 := clock])
  {
    var r, k, last' := Splice(s, i), s[i].0, last[s[i].0 := clock];
    RecencyDistinct(s, last);
    forall p | 0 <= p < |r| ensures r[p].0 in last' {
      assert r[p] == s[SpliceOrigin(i, p)];
    }
    forall q | 0 < q < |r| ensures r[q].0 != k && Rank(last', r[q].0) == Rank(last, r[q].0) < clock {
      assert r[q] == s[SpliceOrigin(i, q)];
    }
    forall p, q | 0 <= p < q < |r| ensures Rank(last', r[q].0) < Rank(last', r[p].0) {
      if p != 0 {
        var op, oq := SpliceOrigin(i, p), SpliceOrigin(i, q);
        assert r[p] == s[op] && r[q] == s[oq];
        assert Rank(last, s[oq].0) < Rank(last, s[op].0);
      }
    }
  }

  /** Pushing a node with a new key to the front and recording its use now keeps the list in recency order. */
  lemma PrependRecency<K, V>(s: seq<(K, V)>, last: map<K, nat>, clock: nat, k: K, v: V)
    requires RecencyOrdered(s, last) && Stamped(last, clock) && k !in KeysOf(s)
    ensures RecencyOrdered([(k, v)] + s, last[k := clock])
  {
    var r, last' := [(k, v)] + s, last[k := clock];
    assert forall p :: 0 < p < |r| ==> r[p] == s[p - 1];
    forall p, q | 0 <= p < q < |r| ensures Rank(last', r[q].0) < Rank(last', r[p].0) {
      assert r[q] == s[q - 1] && r[q].0 != k && r[q].0 in last;
      if p != 0 {
        assert r[p] == s[p - 1] && r[p].0 != k;
        assert Rank(last, s[q - 1].0) < Rank(last, s[p - 1].0);
      }
    }
  }

  /**
   * evict_lru drops the least recently used key: in a list in recency order the
   * tail's key was used before every other cached key, and eviction removes
   * exactly that key and keeps the rest in recency order.
   */
  lemma EvictedLeastRecent<K, V>(s: seq<(K, V)>, last: map<K, nat>)
    requires s != [] && RecencyOrdered(s, last)
    ensures var lru := s[|s| - 1].0;
      && LeastRecent(last, lru, KeysOf(s))
      && KeysOf(Evicted(s)) == KeysOf(s) - {lru}
      && RecencyOrdered(Evicted(s), last)
  {
    var n := |s| - 1;
    var lru := s[n].0;
    RecencyDistinct(s, last);
    forall x | x in KeysOf(s) && x != lru ensures x in last && last[lru] < last[x] {
      var j :| 0 <= j < |s| && s[j].0 == x;
      assert j < n;
      assert Rank(last, s[n].0) < Rank(last, s[j].0);
    }
    PrefixRecency(s, last, n);
    assert Evicted(s) == s[..n];
  }

  /** A prefix of a list in recency order is in recency order, and holds no key the list does not. */
  lemma PrefixRecency<K, V>(s: seq<(K, V)>, last: map<K, nat>, n: nat)
    requires n <= |s| && RecencyOrdered(s, last)
    ensures RecencyOrdered(s[..n], last) && KeysOf(s[..n]) <= KeysOf(s)
  {
    var r := s[..n];
    assert forall j :: 0 <= j < n ==> r[j] == s[j];
    forall p, q | 0 <= p < q < |r| ensures Rank(last, r[q].0) < Rank(last, r[p].0) {
      assert Rank(last, s[q].0) < Rank(last, s[p].0);
    }
    assert s == s[..n] + s[n..];
    KeysOfAppend(s[..n], s[n..]);
  }

  /** Overwriting a node's value keeps the list in recency order. */
  lemma UpdateRecency<K, V>(s: seq<(K, V)>, last: map<K, nat>, i: nat, v: V)
    requires i < |s| && RecencyOrdered(s, last)
    ensures RecencyOrdered(s[i := (s[i].0, v)], last)
  {
    var t := s[i := (s[i].0, v)];
    assert forall j :: 0 <= j < |t| ==> t[j].0 == s[j].0;
    forall p, q | 0 <= p < q < |t| ensures Rank(last, t[q].0) < Rank(last, t[p].0) {
      assert Rank(last, s[q].0) < Rank(last, s[p].0);
    }
  }

  /** put(k, v), recording a use of k now, keeps the list in recency order in every branch. */
  lemma PutRecency<K, V>(s: seq<(K, V)>, last: map<K, nat>, clock: nat, cap: nat, k: K, v: V)
    requires RecencyOrdered(s, last) && Stamped(last, clock)
    ensures RecencyOrdered(PutList(s, cap, k, v), last[k := clock])
  {
    if k in KeysOf(s) {
      var i := Position(s, k);
      assert s[i := (k, v)] == s[i := (s[i].0, v)];
      UpdateRecency(s, last, i, v);
      SpliceRecency(s[i := (k, v)], last, clock, i);
    } else if |s| >= cap && s != [] {
      PrefixRecency(s, last, |s| - 1);
      assert Evicted(s) == s[..|s| - 1];
      PrependRecency(Evicted(s), last, clock, k, v);
    } else {
      PrependRecency(s, last, clock, k, v);
    }
  }

  /** get(k) of a cached key, recording its use now, keeps the list in recency order. */
  lemma TouchRecency<K, V>(s: seq<(K, V)>, last: map<K, nat>, clock: nat, k: K)
    requires RecencyOrdered(s, last) && Stamped(last, clock) && k in KeysOf(s)
    ensures RecencyOrdered(Touch(s, k), last[k := clock])
  {
    SpliceRecency(s, last, clock, Position(s, k));
  }

  /**
   * The cache invariant on values: the capacity is positive and bounds the
   * list, keys are distinct, the index holds exactly the list's keys, and the
   * list is in recency order with respect to the recorded uses.
   */
  ghost predicate CacheInv<K, V>(cap: nat, s: seq<(K, V)>, index: set<K>, clock: nat, last: map<K, nat>) {
    && 0 < cap
    && |s| <= cap
    && DistinctKeys(s)
    && index == KeysOf(s)
    && Stamped(last, clock)
    && RecencyOrdered(s, last)
  }

  /** get of a cached key, recorded as a use, keeps the cache invariant. */
  lemma TouchInv<K, V>(cap: nat, s: seq<(K, V)>, index: set<K>, clock: nat, last: map<K, nat>, k: K)
    requires CacheInv(cap, s, index, clock, last) && k in index
    ensures CacheInv(cap, Touch(s, k), index, clock + 1, last[k := clock])
  {
    TouchRecency(s, last, clock, k);
  }

  /** put, recorded as a use, keeps the cache invariant; the index gains k and, on eviction, loses the tail's key. */
  lemma PutInv<K, V>(cap: nat, s: seq<(K, V)>, index: set<K>, clock: nat, last: map<K, nat>, k: K, v: V)
    requires CacheInv(cap, s, index, clock, last)
    ensures CacheInv(cap, PutList(s, cap, k, v),
      if k in index then index else if |s| >= cap then index - {s[|s| - 1].0} + {k} else index + {k},
      clock + 1, last[k := clock])
  {
    PutInvariant(s, cap, k, v);
    PutRecency(s, last, clock, cap, k, v);
  }

  /** Evicting the tail keeps the cache invariant, and the evicted key is the least recently used one. */
  lemma EvictInv<K, V>(cap: nat, s: seq<(K, V)>, index: set<K>, clock: nat, last: map<K, nat>)
    requires CacheInv(cap, s, index, clock, last) && s != []
    ensures CacheInv(cap, Evicted(s), index - {s[|s| - 1].0}, clock, last)
    ensures LeastRecent(last, s[|s| - 1].0, index)
  {
    EvictedLeastRecent(s, last);
  }

  class LruCache<K(==), V> {
    /** capacity_: fixed at construction. */
    const cap: nat
    /** lru_list_: front is the most recently used node, back the least. */
    var entries: seq<(K, V)>
    /** node_map_: its key set; each key names the one node carrying it. */
    var index: set<K>
    /** Counts the uses so far: each get that finds its key, and each put. */
    ghost var clock: nat
    /** For each key used so far, the clock reading at its last use. */
    ghost var lastUse: map<K, nat>

    /** Capacity bound, list and index consistent, distinct keys, and the list in recency order. */
    ghost predicate Valid()
      reads this
    {
      CacheInv(cap, entries, index, clock, lastUse)
    }

    /** Constructor for a positive capacity; Create models the zero-capacity test in the C++ constructor. */
    constructor (capacity: nat)
      requires 0 < capacity
      ensures Valid() && cap == capacity && entries == [] && clock == 0 && lastUse == map[]
    {
      cap := capacity;
      entries := [];
      index := {};
      clock, lastUse := 0, map[];
    }

    /** The C++ constructor in full: capacity 0 throws invalid_argument. */
    static method Create(capacity: nat) returns (r: Result<LruCache<K, V>>)
      ensures r.Err? <==> capacity == 0
      ensures r.Err? ==> r.error == InvalidArgument
      ensures r.Ok? ==> fresh(r.value) && r.value.Valid() && r.value.cap == capacity && r.value.entries == []
    {
      if capacity == 0 {
        return Err(InvalidArgument);
      }
      var c := new LruCache(capacity);
      return Ok(c);
    }

    method Get(key: K) returns (r: Result<V>)
      requires Valid()
      modifies this
      ensures Valid() && index == old(index) && |entries| == old(|entries|)
      ensures r.Err? <==> key !in old(index)
      ensures r.Err? ==> r.error == OutOfRange && entries == old(entries)
      ensures r.Ok? ==> Lookup(old(entries), key) == Some(r.value) && entries[0] == (key, r.value)
      ensures entries == Touch(old(entries), key)
      ensures r.Ok? ==> clock == old(clock) + 1 && lastUse == old(lastUse)[key := old(clock)]
      ensures r.Err? ==> clock == old(clock) && lastUse == old(lastUse)
    {
      if key !in index {
        return Err(OutOfRange);
      }
      TouchInv(cap, entries, index, clock, lastUse, key);
      var i := Position(entries, key);
      MoveToFront(i);
      clock, lastUse := clock + 1, lastUse[key := clock];
      r := Ok(entries[0].1);
    }

    method Put(key: K, value: V)
      requires Valid()
      modifies this
      ensures Valid()
      ensures entries == PutList(old(entries), cap, key, value)
      ensures entries[0] == (key, value) && key in index
      ensures |entries| == if key in old(index) || old(|entries|) == cap then old(|entries|) else old(|entries|) + 1
      ensures clock == old(clock) + 1 && lastUse == old(lastUse)[key := old(clock)]
      ensures key !in old(index) && old(|entries|) == cap ==>
        var lru := old(entries)[|old(entries)| - 1].0;
        lru !in index && LeastRecent(old(lastUse), lru, old(index))
    {
      ghost var s0, last0, clock0 := entries, lastUse, clock;
      PutInvariant(s0, cap, key, value);
      PutSize(s0, cap, key, value);
      PutInv(cap, s0, index, clock0, last0, key, value);
      if key in index {
        var i := Position(entries, key);
        entries := entries[i := (key, value)];
        MoveToFront(i);
      } else {
        if |entries| >= cap {
          EvictLru();
        }
        entries := [(key, value)] + entries;
        index := index + {key};
      }
      clock, lastUse := clock + 1, lastUse[key := clock];
      assert entries == PutList(s0, cap, key, value) && lastUse == last0[key := clock0];
    }

    function Contains(key: K): (b: bool)
      reads this
      requires Valid()
      ensures b <==> exists i :: 0 <= i < |entries| && entries[i].0 == key
    {
      key in index
    }

    function Size(): (n: nat)
      reads this
      requires Valid()
      ensures n <= cap && n == |index|
    {
      DistinctKeysCard(entries);
      |entries|
    }

    function Capacity(): (c: nat)
      reads this
      requires Valid()
      ensures 0 < c && |entries| <= c
    {
      cap
    }

    /** Splices the node at position i to the front; the index still names the same nodes. */
    method MoveToFront(i: nat)
      requires i < |entries|
      modifies this
      ensures entries == Splice(old(entries), i) && index == old(index)
      ensures clock == old(clock) && lastUse == old(lastUse)
    {
      entries := Splice(entries, i);
    }

    /** Drops the tail node, the least recently used, and its index entry; does nothing on an empty cache. */
    method EvictLru()
      requires Valid()
      modifies this
      ensures Valid() && clock == old(clock) && lastUse == old(lastUse)
      ensures entries == Evicted(old(entries))
      ensures old(entries) == [] ==> index == old(index)
      ensures old(entries) != [] ==> index == old(index) - {old(entries)[|old(entries)| - 1].0}
      ensures old(entries) != [] ==> LeastRecent(lastUse, old(entries)[|old(entries)| - 1].0, old(index))
    {
      if entries == [] {
        return;
      }
      EvictInv(cap, entries, index, clock, lastUse);
      var last := entries[|entries| - 1];
      index := index - {last.0};
      entries := Evicted(entries);
    }
  }
}

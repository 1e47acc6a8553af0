/** `LRUCache<TKey, TValue>`: a dictionary of entries plus a recency list
    whose head is the least recently used key and whose tail is the most
    recently used one. */
module LruCache {
  import opened Wrappers

  /** No key occurs twice. */
  predicate Distinct<K(==)>(s: seq<K>)
  {
    forall i, j :: 0 <= i < j < |s| ==> s[i] != s[j]
  }

  /** The tail of a list without repetitions has none and lacks the head. */
  lemma DistinctTail<K>(s: seq<K>)
    requires s != []
    ensures Distinct(s) ==> Distinct(s[1..]) && s[0] !in s[1..]
  {
    forall i | 0 <= i < |s[1..]| && Distinct(s)
      ensures s[1..][i] != s[0]
    {
      assert s[1..][i] == s[i + 1];
    }
  }

  /** The list with `k` taken out, the others in their order. */
  function Without<K(==,!new)>(s: seq<K>, k: K): (r: seq<K>)
    ensures forall x :: x in r <==> x in s && x != k
    ensures Distinct(s) ==> Distinct(r)
    ensures Distinct(s) && k in s ==> |r| == |s| - 1
    ensures k !in s ==> r == s
    decreases |s|
  {
    if s == [] then []
    else
      DistinctTail(s);
      var rest := Without(s[1..], k);
      if s[0] == k then rest else [s[0]] + rest
  }

  /** A list without repetitions is no longer than the set of its elements. */
  lemma {:induction false} DistinctCard<K(!new)>(s: seq<K>, keys: set<K>)
    requires Distinct(s)
    requires forall x :: x in s <==> x in keys
    ensures |keys| == |s|
    decreases |s|
  {
    if s != [] {
      var rest := s[1..];
      assert forall x :: x in rest <==> x in keys - {s[0]} by {
        forall x ensures x in rest <==> x in keys - {s[0]} {
          if x in rest {
            var i :| 0 <= i < |rest| && rest[i] == x;
            assert s[i + 1] == x;
          }
          if x in keys - {s[0]} {
            var i :| 0 <= i < |s| && s[i] == x;
            assert i != 0;
            assert rest[i - 1] == x;
          }
        }
      }
      DistinctCard(rest, keys - {s[0]});
    } else {
      assert forall x :: x !in keys;
    }
  }

  /** The recency list holds each cached key exactly once and nothing else,
      and the cache, of positive capacity, does not exceed it. */
  ghost predicate Consistent<K(!new), V>(order: seq<K>, cache: map<K, V>, capacity: int)
  {
    0 < capacity && Distinct(order) && (forall k :: k in order <==> k in cache)
    && |cache| == |order| && |order| <= capacity
  }

  /** Refreshing a cached key keeps the cache consistent. */
  lemma TouchConsistent<K(!new), V>(order: seq<K>, cache: map<K, V>, capacity: int, key: K, value: V)
    requires Consistent(order, cache, capacity) && key in cache
    ensures Consistent(Without(order, key) + [key], cache[key := value], capacity)
  {
    DistinctCard(Without(order, key) + [key], cache[key := value].Keys);
  }

  /** Evicting the least recently used key of a full cache for a new one
      keeps it consistent. */
  lemma EvictConsistent<K(!new), V>(order: seq<K>, cache: map<K, V>, capacity: int, key: K, value: V)
    requires Consistent(order, cache, capacity) && key !in cache && |cache| >= capacity
    ensures Consistent(order[1..] + [key], (cache - {order[0]})[key := value], capacity)
  {
    DistinctTail(order);
    DistinctCard(order[1..] + [key], (cache - {order[0]})[key := value].Keys);
  }

  /** Adding a new key to a cache with room keeps it consistent. */
  lemma AddConsistent<K(!new), V>(order: seq<K>, cache: map<K, V>, capacity: int, key: K, value: V)
    requires Consistent(order, cache, capacity) && key !in cache && |cache| < capacity
    ensures Consistent(order + [key], cache[key := value], capacity)
  {
    DistinctCard(order + [key], cache[key := value].Keys);
  }

  /** The entries and recency list that `Set(key, value)` leaves after a
      consistent cache: an existing key gets the value and becomes the most
      recently used; a new key is added at the most recent end, after the
      least recently used key is evicted when the cache is full. Every other
      key keeps its value and its place. */
  ghost predicate SetResult<K(!new), V>(cache0: map<K, V>, order0: seq<K>, capacity: int, key: K, value: V,
                                         cache: map<K, V>, order: seq<K>)
    requires Consistent(order0, cache0, capacity)
  {
    if key in cache0 then cache == cache0[key := value] && order == Without(order0, key) + [key]
    else if |cache0| < capacity then cache == cache0[key := value] && order == order0 + [key]
    else cache == (cache0 - {order0[0]})[key := value] && order == order0[1..] + [key]
  }

  /** How a cache in front of a file read is left: a value that was read is
      stored as by `Set`, and a failed read leaves the entries and their
      order as they were. */
  ghost predicate StoredIfRead<K(!new), V>(cache0: map<K, V>, order0: seq<K>, capacity: int, key: K,
                                            read: Option<V>, cache: map<K, V>, order: seq<K>)
  {
    (read.Some? ==> Consistent(order0, cache0, capacity) && SetResult(cache0, order0, capacity, key, read.value, cache, order))
    && (read.None? ==> cache == cache0 && order == order0)
  }

  class LruCache<K(==,!new), V> {
    /** `_capacity`. */
    const capacity: int
    /** `_cache`, with each node's value. */
    var cache: map<K, V>
    /** `_lruList`, by key: least recently used first. */
    var order: seq<K>

    /** The capacity is positive, the list holds each cached key exactly once
        and nothing else, and the cache never exceeds its capacity. */
    ghost predicate Valid()
      reads this
    {
      Consistent(order, cache, capacity)
    }

    /** The constructor for a positive capacity: an empty cache. */
    constructor (capacity: int)
      requires 0 < capacity
      ensures Valid() && this.capacity == capacity && cache == map[] && order == []
    {
      this.capacity := capacity;
      cache := map[];
      order := [];
    }

    /** `new LRUCache(capacity)`, which throws for a capacity that is not
        positive; the exception is a null result here. */
    static method Create(capacity: int) returns (c: LruCache?<K, V>)
      ensures capacity <= 0 <==> c == null
      ensures c != null ==> (fresh(c) && c.Valid() && c.capacity == capacity
        && c.cache == map[] && c.order == [])
    {
      if capacity <= 0 {
        c := null;
      } else {
        c := new LruCache(capacity);
      }
    }

    /** `Count`. */
    function Count(): (n: nat)
      reads this
      requires Valid()
      ensures n <= capacity && n == |order|
    {
      |cache|
    }

    /** `TryGet`: a hit returns the stored value and makes the key the most
        recently used; a miss returns nothing (the C# default value) and
        changes nothing. */
    method TryGet(key: K) returns (r: Option<V>)
      requires Valid()
      modifies this
      ensures Valid()
      ensures r.Some? <==> key in old(cache)
      ensures cache == old(cache)
      ensures key in old(cache) ==>
        r.value == old(cache)[key] && order == Without(old(order), key) + [key]
      ensures key !in old(cache) ==> order == old(order)
    {
      if key in cache {
        order := Without(order, key) + [key];
        r := Some(cache[key]);
      } else {
        r := None;
      }
    }

    /** `Set`: an existing key gets the new value and moves to the most
        recent end without any eviction; a new key first evicts the least
        recently used entry when the cache is full, then is added at the most
        recent end. */
    method Set(key: K, value: V)
      requires Valid()
      modifies this
      ensures Valid()
      ensures SetResult(old(cache), old(order), capacity, key, value, cache, order)
      ensures key in old(cache) ==> |cache| == |old(cache)|
      ensures key in cache && cache[key] == value && order[|order| - 1] == key
      ensures cache.Keys <= old(cache).Keys + {key}
    {
      if key in cache {
        TouchConsistent(order, cache, capacity, key, value);
        order := Without(order, key) + [key];
        cache := cache[key := value];
      } else if |cache| >= capacity {
        EvictConsistent(order, cache, capacity, key, value);
        var oldest := order[0];
        order := order[1..] + [key];
        cache := (cache - {oldest})[key := value];
      } else {
        AddConsistent(order, cache, capacity, key, value);
        order := order + [key];
        cache := cache[key := value];
      }
    }

    /** `Clear`: nothing cached. */
    method Clear()
      requires Valid()
      modifies this
      ensures Valid() && cache == map[] && order == []
    {
      cache := map[];
      order := [];
    }

    /** `Remove`: only `key` goes, the other keys keep their values and their
        order; an absent key changes nothing. */
    method Remove(key: K)
      requires Valid()
      modifies this
      ensures Valid()
      ensures cache == old(cache) - {key}
      ensures order == Without(old(order), key)
    {
      if key in cache {
        order := Without(order, key);
        cache := cache - {key};
        DistinctCard(order, cache.Keys);
      }
    }
  }
}

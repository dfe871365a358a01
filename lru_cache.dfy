/**
 * The LRU cache with optional time-to-live used for API responses.
 *
 * The cache is an `OrderedDict` from key to `(value, timestamp)` whose order
 * is the recency order: the front is the least recently used key, the end the
 * most recently used. Here the order is a sequence of keys and the entries a
 * map; the clock `time.time()` is the caller-supplied integer `now`.
 */
module Cache {
  import opened Wrappers

  /** The value stored under a key, with the time it was stored. */
  datatype Slot<V> = Slot(value: V, timestamp: int)

  /** The exceptions the cache raises. */
  datatype CacheError =
    | ValueError  // a capacity that is not positive
    | NameError   // the undefined name on the update path of `put`

  /**
   * What `get` returns: the value, the sentinel string "Key is invalid" for
   * an absent key, or `None` for an expired one.
   */
  datatype Lookup<V> = Found(value: V) | KeyInvalid | Expired

  /** The counts `stats` reports. */
  datatype CacheStats = CacheStats(size: nat, capacity: int, hits: nat, misses: nat)

  /** No key occurs twice. */
  predicate NoDup(s: seq<string>) {
    forall i, j :: 0 <= i < j < |s| ==> s[i] != s[j]
  }

  /** The tail of a duplicate-free order is duplicate-free and lacks the head. */
  lemma NoDupTail(s: seq<string>)
    requires s != [] && NoDup(s)
    ensures NoDup(s[1..]) && s[0] !in s[1..]
  {
    forall i, j | 0 <= i < j < |s[1..]| ensures s[1..][i] != s[1..][j] {
      assert s[1..][i] == s[i + 1] && s[1..][j] == s[j + 1];
    }
    forall j | 0 <= j < |s[1..]| ensures s[1..][j] != s[0] {
      assert s[1..][j] == s[j + 1];
    }
  }

  /** `s` without `k`, the other keys in their order (`del` and `move_to_end` on the order). */
  function Remove(s: seq<string>, k: string): (r: seq<string>)
    ensures forall x :: x in r <==> x in s && x != k
    ensures k !in s ==> r == s
    ensures NoDup(s) ==> NoDup(r)
    ensures NoDup(s) && k in s ==> |r| == |s| - 1
  {
    if s == [] then []
    else if s[0] == k then Remove(s[1..], k)
    else
      var t := Remove(s[1..], k);
      assert NoDup(s) ==> NoDup(s[1..]) && s[0] !in t by {
        if NoDup(s) {
          NoDupTail(s);
        }
      }
      [s[0]] + t
  }

  /**
   * Removing the key at position `p` of a duplicate-free order closes the gap:
   * the keys before and after it keep their relative order.
   */
  lemma {:induction false} RemoveKeepsOrder(s: seq<string>, p: nat)
    requires p < |s| && NoDup(s)
    ensures Remove(s, s[p]) == s[..p] + s[p + 1..]
    decreases p
  {
    NoDupTail(s);
    if p == 0 {
      assert s[p + 1..] == s[1..];
    } else {
      assert s[1..][p - 1] == s[p];
      RemoveKeepsOrder(s[1..], p - 1);
      assert s[..p] == [s[0]] + s[1..][..p - 1];
      assert s[p + 1..] == s[1..][p..];
    }
  }

  /** A map whose keys are exactly the elements of a duplicate-free sequence has its length. */
  lemma {:induction false} KeysCount<V>(s: seq<string>, m: map<string, V>)
    requires NoDup(s) && forall k :: k in s <==> k in m
    ensures |m| == |s|
    decreases |s|
  {
    if s == [] {
      assert m == map[];
    } else {
      var rest := m - {s[0]};
      forall k ensures k in s[1..] <==> k in rest {
        if k in s[1..] {
          var j :| 1 <= j < |s| && s[j] == k;
          assert s[0] != s[j];
        }
        if k in rest {
          assert k in s && k != s[0];
          var j :| 0 <= j < |s| && s[j] == k;
          assert j > 0 && s[1..][j - 1] == k;
        }
      }
      KeysCount(s[1..], rest);
    }
  }

  /** Storing `key` again after evicting another key `x` is evicting `x` and storing once. */
  lemma EvictOtherThenStore<V>(m: map<string, Slot<V>>, key: string, x: string, v: Slot<V>)
    requires x != key
    ensures (m[key := v] - {x})[key := v] == (m - {x})[key := v]
  {
  }

  /** Storing `key` again after evicting it is storing it once. */
  lemma EvictSelfThenStore<V>(m: map<string, Slot<V>>, key: string, v: Slot<V>)
    ensures (m[key := v] - {key})[key := v] == m[key := v]
  {
  }

  class LRUCache<V> {
    /** The largest number of keys held at once. */
    const capacity: int
    /** The time-to-live of an entry, or `None` when entries never expire. */
    const ttl: Option<int>
    /** The keys, least recently used first. */
    var order: seq<string>
    /** The value and timestamp stored under each key. */
    var slots: map<string, Slot<V>>
    var hits: nat
    var misses: nat

    /** The order lists each stored key once, and no more keys than the capacity. */
    ghost predicate Valid()
      reads this
    {
      && capacity > 0
      && NoDup(order)
      && (forall k :: k in order <==> k in slots)
      && |order| <= capacity
    }

    /** `__init__` past its capacity check (see `NewCache`). */
    constructor (capacity: int, ttl: Option<int> := None)
      requires capacity > 0
      ensures Valid()
      ensures this.capacity == capacity && this.ttl == ttl
      ensures order == [] && slots == map[] && hits == 0 && misses == 0
    {
      this.capacity := capacity;
      this.ttl := ttl;
      order := [];
      slots := map[];
      hits := 0;
      misses := 0;
    }

    /** The entry has outlived the time-to-live at time `now`. */
    predicate IsExpired(slot: Slot<V>, now: int): (expired: bool)
      ensures ttl.None? ==> !expired
      ensures expired ==> now >= slot.timestamp + ttl.value
    {
      ttl.Some? && now - slot.timestamp >= ttl.value
    }

    /** Once an entry has expired it stays expired at every later time. */
    lemma ExpiryIsPermanent(slot: Slot<V>, now: int, later: int)
      requires IsExpired(slot, now) && now <= later
      ensures IsExpired(slot, later)
    {
    }

    /** `__len__`: the number of stored keys, never above the capacity. */
    function Len(): (n: nat)
      reads this
      requires Valid()
      ensures n == |slots| && n == |order|
      ensures n <= capacity
    {
      KeysCount(order, slots);
      |order|
    }

    /** `__contains__`: whether `key` is stored, and so has a place in the order. */
    function Contains(key: string): (present: bool)
      reads this
      requires Valid()
      ensures present <==> key in slots
      ensures present <==> key in order
    {
      key in slots
    }

    /** `stats` without the hit rate: size, capacity and the two counters. */
    function Stats(): (s: CacheStats)
      reads this
      requires Valid()
      ensures s.size == Len() && s.capacity == capacity
      ensures s.hits == hits && s.misses == misses
      ensures s.size <= s.capacity
    {
      CacheStats(Len(), capacity, hits, misses)
    }

    /**
     * Lines 35-40 of `put`: when the cache is full, evict the least recently
     * used key; then store the entry under `key`, which goes to the end of
     * the order unless it is still stored, in which case it keeps its place.
     */
    method StoreEvictingIfFull(key: string, value: V, now: int)
      requires Valid()
      modifies this`order, this`slots
      ensures Valid()
      ensures |old(order)| >= capacity ==>
        && order == (if key in old(order)[1..] then old(order)[1..] else old(order)[1..] + [key])
        && slots == (old(slots) - {old(order)[0]})[key := Slot(value, now)]
      ensures |old(order)| < capacity ==>
        && order == (if key in old(slots) then old(order) else old(order) + [key])
        && slots == old(slots)[key := Slot(value, now)]
    {
      if Len() >= capacity {
        var lru := order[0];
        order := order[1..];
        slots := slots - {lru};
        assert key in slots <==> key in old(order)[1..];
      }
      if key !in slots {
        order := order + [key];
      }
      slots := slots[key := Slot(value, now)];
    }

    /** Lines 31-32 of `put` once corrected: give a stored key a new entry and make it the most recently used. */
    method Touch(key: string, value: V, now: int)
      requires Valid() && key in slots
      modifies this`order, this`slots
      ensures Valid()
      ensures order == Remove(old(order), key) + [key]
      ensures slots == old(slots)[key := Slot(value, now)]
      ensures |order| == |old(order)|
    {
      order := Remove(order, key) + [key];
      slots := slots[key := Slot(value, now)];
    }

    /**
     * `put` as written. A stored key fails with `NameError` before anything
     * changes; a new key is inserted, evicting the least recently used key
     * when the cache is full.
     */
    method Put(key: string, value: V, now: int) returns (r: Outcome<CacheError>)
      requires Valid()
      modifies this`order, this`slots
      ensures Valid()
      ensures key in old(slots) ==> r == Fail(NameError) && order == old(order) && slots == old(slots)
      ensures key !in old(slots) ==> r == Pass
      ensures key !in old(slots) && |old(order)| >= capacity ==>
        && order == old(order)[1..] + [key]
        && slots == (old(slots) - {old(order)[0]})[key := Slot(value, now)]
      ensures key !in old(slots) && |old(order)| < capacity ==>
        && order == old(order) + [key]
        && slots == old(slots)[key := Slot(value, now)]
    {
      if key in slots {
        return Fail(NameError);
      }
      StoreEvictingIfFull(key, value, now);
      r := Pass;
    }

    /**
     * `put` as its comments intend it: a stored key gets the new value and
     * timestamp and becomes the most recently used, evicting nothing; a new
     * key is handled as `Put` handles it.
     */
    method PutIntended(key: string, value: V, now: int)
      requires Valid()
      modifies this`order, this`slots
      ensures Valid()
      ensures key in old(slots) ==>
        && order == Remove(old(order), key) + [key]
        && slots == old(slots)[key := Slot(value, now)]
        && |order| == |old(order)|
      ensures key !in old(slots) && |old(order)| >= capacity ==>
        && order == old(order)[1..] + [key]
        && slots == (old(slots) - {old(order)[0]})[key := Slot(value, now)]
      ensures key !in old(slots) && |old(order)| < capacity ==>
        && order == old(order) + [key]
        && slots == old(slots)[key := Slot(value, now)]
    {
      if key in slots {
        Touch(key, value, now);
      } else {
        StoreEvictingIfFull(key, value, now);
      }
    }

    /**
     * `put` with only the undefined name on line 31 corrected: a stored key
     * is updated and moved to the end, but line 35 then evicts the front key
     * of a full cache, although no key is being added. A new key is handled
     * as `Put` handles it.
     */
    method PutWithNameFixed(key: string, value: V, now: int)
      requires Valid()
      modifies this`order, this`slots
      ensures Valid()
      ensures key in old(slots) && |old(order)| >= capacity && Remove(old(order), key) != [] ==>
        && order == Remove(old(order), key)[1..] + [key]
        && slots == (old(slots) - {Remove(old(order), key)[0]})[key := Slot(value, now)]
      ensures key in old(slots) && (|old(order)| < capacity || Remove(old(order), key) == []) ==>
        && order == Remove(old(order), key) + [key]
        && slots == old(slots)[key := Slot(value, now)]
      ensures key !in old(slots) && |old(order)| >= capacity ==>
        && order == old(order)[1..] + [key]
        && slots == (old(slots) - {old(order)[0]})[key := Slot(value, now)]
      ensures key !in old(slots) && |old(order)| < capacity ==>
        && order == old(order) + [key]
        && slots == old(slots)[key := Slot(value, now)]
    {
      ghost var stored := key in slots;
      ghost var rest := Remove(order, key);
      if key in slots {
        Touch(key, value, now);
      }
      ghost var moved := order;
      StoreEvictingIfFull(key, value, now);
      if stored && |moved| >= capacity {
        if rest != [] {
          assert moved[1..] == rest[1..] + [key];
          EvictOtherThenStore(old(slots), key, rest[0], Slot(value, now));
        } else {
          EvictSelfThenStore(old(slots), key, Slot(value, now));
        }
      }
    }

    /**
     * `get`: an absent key is a miss and returns the sentinel; an expired key
     * is deleted and is a miss; any other key is a hit, returns its value and
     * becomes the most recently used. Other keys keep their order.
     */
    method Get(key: string, now: int) returns (r: Lookup<V>)
      requires Valid()
      modifies this`order, this`slots, this`hits, this`misses
      ensures Valid()
      ensures key !in old(slots) ==>
        && r == KeyInvalid
        && misses == old(misses) + 1 && hits == old(hits)
        && order == old(order) && slots == old(slots)
      ensures key in old(slots) && IsExpired(old(slots)[key], now) ==>
        && r == Expired
        && misses == old(misses) + 1 && hits == old(hits)
        && order == Remove(old(order), key) && slots == old(slots) - {key}
      ensures key in old(slots) && !IsExpired(old(slots)[key], now) ==>
        && r == Found(old(slots)[key].value)
        && hits == old(hits) + 1 && misses == old(misses)
        && order == Remove(old(order), key) + [key] && slots == old(slots)
    {
      if key !in slots {
        misses := misses + 1;
        return KeyInvalid;
      }
      var slot := slots[key];
      if IsExpired(slot, now) {
        order := Remove(order, key);
        slots := slots - {key};
        misses := misses + 1;
        return Expired;
      }
      order := Remove(order, key) + [key];
      hits := hits + 1;
      r := Found(slot.value);
    }

    /** `clear`: forget every key and reset both counters; capacity and TTL stay. */
    method Clear()
      requires Valid()
      modifies this`order, this`slots, this`hits, this`misses
      ensures Valid()
      ensures order == [] && slots == map[] && hits == 0 && misses == 0
    {
      order := [];
      slots := map[];
      hits := 0;
      misses := 0;
    }
  }

  /** `LRUCache(capacity, ttl)`: `ValueError` unless the capacity is positive. */
  method NewCache<V>(capacity: int, ttl: Option<int> := None) returns (r: Result<LRUCache<V>, CacheError>)
    ensures capacity <= 0 <==> r == Failure(ValueError)
    ensures r.Success? ==>
      && fresh(r.value) && r.value.Valid()
      && r.value.capacity == capacity && r.value.ttl == ttl
      && r.value.order == [] && r.value.slots == map[]
      && r.value.hits == 0 && r.value.misses == 0
  {
    if capacity <= 0 {
      return Failure(ValueError);
    }
    var c := new LRUCache<V>(capacity, ttl);
    r := Success(c);
  }

  /**
   * A new key read back at the time it was stored is found with its value,
   * unless the time-to-live is not positive; either way the cache keeps
   * at most `capacity` keys.
   */
  method PutThenGet<V>(c: LRUCache<V>, key: string, value: V, now: int) returns (r: Lookup<V>)
    requires c.Valid() && key !in c.slots
    modifies c
    ensures c.Valid() && c.Len() <= c.capacity
    ensures c.ttl.None? || c.ttl.value > 0 ==> r == Found(value) && c.order != [] && c.order[|c.order| - 1] == key
    ensures c.ttl.Some? && c.ttl.value <= 0 ==> r == Expired && key !in c.slots
  {
    var _ := c.Put(key, value, now);
    r := c.Get(key, now);
  }

  /**
   * Storing a key twice: the second `put` raises `NameError`, and `get`
   * still returns the first value.
   */
  method UpdateIsLost() returns (second: Outcome<CacheError>, v: Lookup<int>)
    ensures second == Fail(NameError)
    ensures v == Found(1)
  {
    var c := new LRUCache<int>(1);
    var first := c.Put("a", 1, 0);
    second := c.Put("a", 2, 1);
    v := c.Get("a", 2);
  }

  /**
   * In a full cache of two, updating "a" with only the name on line 31
   * corrected evicts "b" and leaves one key.
   */
  method NameFixAloneEvicts() returns (keptB: bool, size: nat)
    ensures !keptB && size == 1
  {
    var c := new LRUCache<int>(2);
    var _ := c.Put("a", 1, 0);
    var _ := c.Put("b", 2, 0);
    c.PutWithNameFixed("a", 3, 1);
    keptB := c.Contains("b");
    size := c.Len();
  }

  /** The same updates through `PutIntended` keep "b" and both keys. */
  method IntendedUpdateKeepsOthers() returns (keptB: bool, size: nat)
    ensures keptB && size == 2
  {
    var c := new LRUCache<int>(2);
    var _ := c.Put("a", 1, 0);
    var _ := c.Put("b", 2, 0);
    c.PutIntended("a", 3, 1);
    keptB := c.Contains("b");
    size := c.Len();
  }
}

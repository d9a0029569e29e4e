/**
 * A capacity-bounded cache with least-recently-used eviction
 * (`LRUCache.java`). The source keeps a LinkedHashMap in insertion order:
 * re-inserting a key moves it to the end, so the first key is the least
 * recently used one. Here that map is `Entries`: the key order, oldest
 * first, beside the key-to-value map.
 */
module Lru {
  import opened Wrappers

  /** The contents of the LinkedHashMap: its keys in iteration order and its mapping. */
  datatype Entries<K, V> = Entries(order: seq<K>, values: map<K, V>)

  predicate Distinct<K(==)>(s: seq<K>) {
    forall i, j :: 0 <= i < j < |s| ==> s[i] != s[j]
  }

  /** The order lists every key of the mapping exactly once. */
  predicate WellFormed<K(==), V>(e: Entries<K, V>) {
    && Distinct(e.order)
    && (forall k :: k in e.values ==> k in e.order)
    && (forall k :: k in e.order ==> k in e.values)
  }

  /** The empty map a cache starts with. */
  function Empty<K(==), V>(): (r: Entries<K, V>)
    ensures WellFormed(r) && |r.order| == 0
  {
    Entries([], map[])
  }

  /** `s` with the occurrences of `k` removed, order kept. */
  function Without<K(==)>(s: seq<K>, k: K): (r: seq<K>)
    ensures forall x :: x in r ==> x in s && x != k
    ensures forall x :: x in s && x != k ==> x in r
    ensures Distinct(s) ==> Distinct(r)
    ensures Distinct(s) && k in s ==> |r| == |s| - 1
    ensures k !in s ==> r == s
  {
    if |s| == 0 then []
    else if s[0] == k then Without(s[1..], k)
    else
      var t := Without(s[1..], k);
      assert Distinct(s) ==> s[0] !in s[1..];
      [s[0]] + t
  }

  // ---------------------------------------------------------------------
  // the operations on values
  // ---------------------------------------------------------------------

  /**
   * `set(key, value)`: a present key is removed and re-put at the end; a
   * new key first evicts the oldest entry when size == capacity, which
   * fails (`it.next()` on an empty iterator) when the map is empty.
   */
  function Put<K(==), V>(e: Entries<K, V>, capacity: int, key: K, value: V): (r: Option<Entries<K, V>>)
  {
    if key in e.values then
      Some(Entries(Without(e.order, key) + [key], e.values[key := value]))
    else if |e.order| == capacity then
      if |e.order| == 0 then None
      else Some(Entries(e.order[1..] + [key], (e.values - {e.order[0]})[key := value]))
    else
      Some(Entries(e.order + [key], e.values[key := value]))
  }

  /**
   * `get(key)`: the stored value, if any, and the entries after the hit
   * has been re-put as most recent; a miss changes nothing.
   */
  function Lookup<K(==), V>(e: Entries<K, V>, key: K): (r: (Option<V>, Entries<K, V>))
  {
    if key in e.values then
      (Some(e.values[key]), Entries(Without(e.order, key) + [key], e.values))
    else
      (None, e)
  }

  // ---------------------------------------------------------------------
  // properties of Put and Lookup
  // ---------------------------------------------------------------------

  /** Put fails exactly for a new key on an empty map of capacity 0. */
  lemma PutFails<K, V>(e: Entries<K, V>, capacity: int, key: K, value: V)
    ensures Put(e, capacity, key, value).None? <==> key !in e.values && capacity == 0 && |e.order| == 0
  {
  }

  /** A successful Put leaves the order and the mapping consistent. */
  lemma PutWellFormed<K, V>(e: Entries<K, V>, capacity: int, key: K, value: V)
    requires WellFormed(e) && Put(e, capacity, key, value).Some?
    ensures WellFormed(Put(e, capacity, key, value).value)
  {
    var r := Put(e, capacity, key, value).value;
    if key !in e.values && |e.order| == capacity {
      forall k | k in e.order && k != e.order[0]
        ensures k in e.order[1..]
      {
        var i :| 0 <= i < |e.order| && e.order[i] == k;
        assert e.order[1..][i - 1] == k;
      }
    }
    assert forall i :: 0 <= i < |r.order| - 1 ==> r.order[i] != key;
  }

  /** With a non-negative capacity, Put never makes the map larger than the capacity. */
  lemma PutBounded<K, V>(e: Entries<K, V>, capacity: int, key: K, value: V)
    requires WellFormed(e) && 0 <= capacity && |e.order| <= capacity
    requires Put(e, capacity, key, value).Some?
    ensures |Put(e, capacity, key, value).value.order| <= capacity
  {
  }

  /** After a successful Put the key maps to the new value and is the most recent. */
  lemma PutStores<K, V>(e: Entries<K, V>, capacity: int, key: K, value: V)
    requires Put(e, capacity, key, value).Some?
    ensures var r := Put(e, capacity, key, value).value;
      key in r.values && r.values[key] == value && |r.order| > 0 && r.order[|r.order| - 1] == key
  {
  }

  /** Put invents nothing: every other key it keeps still maps to its old value. */
  lemma PutKeepsOthers<K, V>(e: Entries<K, V>, capacity: int, key: K, value: V)
    requires Put(e, capacity, key, value).Some?
    ensures var r := Put(e, capacity, key, value).value;
      forall k :: k in r.values && k != key ==> k in e.values && r.values[k] == e.values[k]
  {
  }

  /** Putting a value and looking its key up gives that value back. */
  lemma PutThenLookup<K, V>(e: Entries<K, V>, capacity: int, key: K, value: V)
    requires Put(e, capacity, key, value).Some?
    ensures Lookup(Put(e, capacity, key, value).value, key).0 == Some(value)
  {
  }

  /** Re-putting a present key evicts nothing and keeps every other entry. */
  lemma PutExisting<K, V>(e: Entries<K, V>, capacity: int, key: K, value: V)
    requires WellFormed(e) && key in e.values
    ensures Put(e, capacity, key, value).Some?
    ensures var r := Put(e, capacity, key, value).value;
      |r.order| == |e.order| && r.values.Keys == e.values.Keys
      && forall k :: k in e.values && k != key ==> r.values[k] == e.values[k]
  {
  }

  /**
   * Putting a new key into a full map evicts exactly the least recently
   * used key and keeps every other entry.
   */
  lemma PutEvicts<K, V>(e: Entries<K, V>, capacity: int, key: K, value: V)
    requires WellFormed(e) && key !in e.values && |e.order| == capacity && capacity > 0
    ensures Put(e, capacity, key, value).Some?
    ensures var r := Put(e, capacity, key, value).value;
      |r.order| == |e.order| && r.values.Keys == e.values.Keys - {e.order[0]} + {key}
      && forall k :: k in e.values && k != e.order[0] ==> r.values[k] == e.values[k]
  {
  }

  /** Putting a new key into a map that is not full evicts nothing. */
  lemma PutGrows<K, V>(e: Entries<K, V>, capacity: int, key: K, value: V)
    requires WellFormed(e) && key !in e.values && |e.order| != capacity
    ensures Put(e, capacity, key, value).Some?
    ensures var r := Put(e, capacity, key, value).value;
      |r.order| == |e.order| + 1 && r.values.Keys == e.values.Keys + {key}
      && forall k :: k in e.values ==> r.values[k] == e.values[k]
  {
  }

  /**
   * A hit returns the stored value, keeps the mapping and makes the key the
   * most recent; a miss returns nothing and keeps the entries as they were.
   */
  lemma LookupResult<K, V>(e: Entries<K, V>, key: K)
    requires WellFormed(e)
    ensures var (v, r) := Lookup(e, key);
      (v.Some? <==> key in e.values)
      && (v.Some? ==> v.value == e.values[key] && r.values == e.values && r.order[|r.order| - 1] == key
                      && |r.order| == |e.order| && WellFormed(r))
      && (v.None? ==> r == e)
  {
    if key in e.values {
      var r := Lookup(e, key).1;
      assert forall i :: 0 <= i < |r.order| - 1 ==> r.order[i] != key;
    }
  }

  /** A hit is a Put of the value already stored. */
  lemma LookupIsPut<K, V>(e: Entries<K, V>, capacity: int, key: K)
    requires key in e.values
    ensures Put(e, capacity, key, e.values[key]) == Some(Lookup(e, key).1)
  {
    assert e.values[key := e.values[key]] == e.values;
  }

  // ---------------------------------------------------------------------
  // the cache object
  // ---------------------------------------------------------------------

  class LRUCache<K(==), V> {
    var capacity: int
    var entries: Entries<K, V>
    var requests: int
    var hits: int

    /**
     * The entries are consistent, hits never exceed requests, and a
     * non-negative capacity bounds the size (capacity 0 keeps the map empty).
     */
    ghost predicate Valid()
      reads this
    {
      WellFormed(entries) && 0 <= hits <= requests && (capacity >= 0 ==> |entries.order| <= capacity)
    }

    constructor(capacity: int)
      ensures Valid()
      ensures this.capacity == capacity && entries == Empty() && requests == 0 && hits == 0
    {
      this.capacity := capacity;
      entries := Empty();
      requests := 0;
      hits := 0;
    }

    /** `set`; `ok` is false where the source throws NoSuchElementException. */
    method Set(key: K, value: V) returns (ok: bool)
      requires Valid()
      modifies this
      ensures Valid()
      ensures ok <==> Put(old(entries), capacity, key, value).Some?
      ensures entries == (if ok then Put(old(entries), capacity, key, value).value else old(entries))
      ensures capacity == old(capacity) && requests == old(requests) && hits == old(hits)
    {
      ghost var before := entries;
      if key in entries.values {
        entries := Entries(Without(entries.order, key), entries.values - {key});
        assert entries.values[key := value] == before.values[key := value];
      } else if |entries.order| == capacity {
        if |entries.order| == 0 {
          return false;
        }
        var eldest := entries.order[0];
        entries := Entries(entries.order[1..], entries.values - {eldest});
      }
      entries := Entries(entries.order + [key], entries.values[key := value]);
      ok := true;
      assert entries == Put(before, capacity, key, value).value;
      PutWellFormed(before, capacity, key, value);
    }

    /** `get`: counts the request, and a hit both counts and refreshes the key. */
    method Get(key: K) returns (r: Option<V>)
      requires Valid()
      modifies this
      ensures Valid()
      ensures r == Lookup(old(entries), key).0 && entries == Lookup(old(entries), key).1
      ensures requests == old(requests) + 1 && hits == old(hits) + (if r.Some? then 1 else 0)
      ensures capacity == old(capacity)
    {
      requests := requests + 1;
      r := if key in entries.values then Some(entries.values[key]) else None;
      if r.Some? {
        hits := hits + 1;
        LookupIsPut(entries, capacity, key);
        var _ := Set(key, r.value);
      }
    }
  }
}

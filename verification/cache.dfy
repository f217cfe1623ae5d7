/**
 * The bounded recency cache: a JavaScript `Map` with a size cap. A `Map`
 * iterates its keys in insertion order; the cache uses that order as its
 * recency order, oldest first. `get` re-inserts a hit at the newest end;
 * `set` drops the oldest entry once the map is full.
 *
 * The map is modelled as the sequence of its entries in iteration order.
 * `Map.prototype.delete` and `Map.prototype.set` are the functions `Delete`
 * and `Insert` below.
 */
module BoundedCache {
  import opened Wrappers

  /** One key/value pair of the map. */
  datatype Entry<V> = Entry(key: string, value: V)

  /** 50: the capacity the record manager falls back to, which is also the default `maxSize` of the source constructor. */
  const DefaultMaxSize: int := 50

  /** A JavaScript `Map` never holds the same key twice. */
  predicate DistinctKeys<V>(s: seq<Entry<V>>) {
    forall i, j :: 0 <= i < j < |s| ==> s[i].key != s[j].key
  }

  /** Position of `key` in iteration order, or -1 when absent (`Map.prototype.has`). */
  function IndexOf<V>(s: seq<Entry<V>>, key: string): (i: int)
    ensures -1 <= i < |s|
    ensures i == -1 <==> forall j :: 0 <= j < |s| ==> s[j].key != key
    ensures 0 <= i ==> s[i].key == key && forall j :: 0 <= j < i ==> s[j].key != key
    decreases |s|
  {
    if |s| == 0 then -1
    else if s[0].key == key then 0
    else
      var j := IndexOf(s[1..], key);
      if j == -1 then -1 else j + 1
  }

  /** `Map.prototype.get`, with absence made explicit. */
  function Lookup<V>(s: seq<Entry<V>>, key: string): (r: Option<V>)
    ensures r.None? <==> forall j :: 0 <= j < |s| ==> s[j].key != key
  {
    var i := IndexOf(s, key);
    if i == -1 then None else Some(s[i].value)
  }

  /** In a map with distinct keys, the entry at position `j` is the one a lookup of its key finds. */
  lemma LookupAt<V>(s: seq<Entry<V>>, j: int)
    requires DistinctKeys(s) && 0 <= j < |s|
    ensures IndexOf(s, s[j].key) == j
    ensures Lookup(s, s[j].key) == Some(s[j].value)
  {
  }

  /** Removing position `i` leaves the lookups of every other key as they were. */
  lemma RemoveAt<V>(s: seq<Entry<V>>, i: int)
    requires DistinctKeys(s) && 0 <= i < |s|
    ensures var r := s[..i] + s[i + 1..];
      DistinctKeys(r) && Lookup(r, s[i].key) == None &&
      forall k :: k != s[i].key ==> Lookup(r, k) == Lookup(s, k)
  {
    var r := s[..i] + s[i + 1..];
    assert forall j :: 0 <= j < i ==> r[j] == s[j];
    assert forall j :: i <= j < |r| ==> r[j] == s[j + 1];
    assert DistinctKeys(r) by {
      forall a, b | 0 <= a < b < |r| ensures r[a].key != r[b].key {
        var a' := if a < i then a else a + 1;
        var b' := if b < i then b else b + 1;
        assert r[a] == s[a'] && r[b] == s[b'];
      }
    }
    assert Lookup(r, s[i].key) == None by {
      forall j | 0 <= j < |r| ensures r[j].key != s[i].key {
        var j' := if j < i then j else j + 1;
        assert r[j] == s[j'];
      }
    }
    forall k | k != s[i].key
      ensures Lookup(r, k) == Lookup(s, k)
    {
      if Lookup(s, k).Some? {
        var j := IndexOf(s, k);
        var j' := if j < i then j else j - 1;
        assert r[j'] == s[j];
        LookupAt(r, j');
        LookupAt(s, j);
      } else {
        forall m | 0 <= m < |r| ensures r[m].key != k {
          var m' := if m < i then m else m + 1;
          assert r[m] == s[m'];
        }
      }
    }
  }

  /** Overwriting position `i` with the same key changes that key's value only. */
  lemma ReplaceAt<V>(s: seq<Entry<V>>, i: int, value: V)
    requires DistinctKeys(s) && 0 <= i < |s|
    ensures var r := s[i := Entry(s[i].key, value)];
      DistinctKeys(r) && Lookup(r, s[i].key) == Some(value) &&
      forall k :: k != s[i].key ==> Lookup(r, k) == Lookup(s, k)
  {
    var r := s[i := Entry(s[i].key, value)];
    LookupAt(r, i);
    forall k | k != s[i].key
      ensures Lookup(r, k) == Lookup(s, k)
    {
      if Lookup(s, k).Some? {
        var j := IndexOf(s, k);
        LookupAt(r, j);
        LookupAt(s, j);
      }
    }
  }

  /** Appending a new key changes no other key's lookup. */
  lemma AppendNew<V>(s: seq<Entry<V>>, key: string, value: V)
    requires DistinctKeys(s) && Lookup(s, key).None?
    ensures var r := s + [Entry(key, value)];
      DistinctKeys(r) && Lookup(r, key) == Some(value) &&
      forall k :: k != key ==> Lookup(r, k) == Lookup(s, k)
  {
    var r := s + [Entry(key, value)];
    LookupAt(r, |s|);
    forall k | k != key
      ensures Lookup(r, k) == Lookup(s, k)
    {
      if Lookup(s, k).Some? {
        var j := IndexOf(s, k);
        LookupAt(r, j);
        LookupAt(s, j);
      }
    }
  }

  /** `Map.prototype.delete`: the entry for `key` goes, every other entry stays where it was. */
  function Delete<V>(s: seq<Entry<V>>, key: string): (r: seq<Entry<V>>)
    requires DistinctKeys(s)
    ensures DistinctKeys(r)
    ensures Lookup(r, key) == None
    ensures forall k :: k != key ==> Lookup(r, k) == Lookup(s, k)
    ensures |r| == if Lookup(s, key).Some? then |s| - 1 else |s|
  {
    var i := IndexOf(s, key);
    if i == -1 then s
    else
      RemoveAt(s, i);
      s[..i] + s[i + 1..]
  }

  /**
   * `Map.prototype.set`: a new key is appended at the newest end; an existing
   * key keeps its position and only its value changes.
   */
  function Insert<V>(s: seq<Entry<V>>, key: string, value: V): (r: seq<Entry<V>>)
    requires DistinctKeys(s)
    ensures DistinctKeys(r)
    ensures Lookup(r, key) == Some(value)
    ensures forall k :: k != key ==> Lookup(r, k) == Lookup(s, k)
    ensures Lookup(s, key).None? ==> r == s + [Entry(key, value)]
    ensures Lookup(s, key).Some? ==> |r| == |s| && forall j :: 0 <= j < |s| ==> r[j].key == s[j].key
  {
    var i := IndexOf(s, key);
    if i == -1 then
      AppendNew(s, key, value);
      s + [Entry(key, value)]
    else
      ReplaceAt(s, i, value);
      s[i := Entry(key, value)]
  }

  /** The most entries a cache of capacity `maxSize` can hold: `set` always makes room for one. */
  function Capacity(maxSize: int): nat {
    if maxSize < 1 then 1 else maxSize
  }

  /** The entries after `get(key)`: a hit is moved to the newest end, a miss changes nothing. */
  function Touched<V>(s: seq<Entry<V>>, key: string): (r: seq<Entry<V>>)
    requires DistinctKeys(s)
    ensures DistinctKeys(r)
  {
    match Lookup(s, key)
    case None => s
    case Some(v) =>
      AppendNew(Delete(s, key), key, v);
      Delete(s, key) + [Entry(key, v)]
  }

  /**
   * The entries after `set(key, value)`: when the map already holds `maxSize`
   * entries or more, the oldest one is dropped first (even when `key` is
   * present further on); then `key` is inserted or overwritten in place.
   */
  function AfterSet<V>(s: seq<Entry<V>>, maxSize: int, key: string, value: V): seq<Entry<V>>
    requires DistinctKeys(s)
  {
    var kept := if |s| >= maxSize && |s| > 0 then s[1..] else s;
    assert DistinctKeys(kept);
    Insert(kept, key, value)
  }

  class Cache<V> {
    /** The private `Map`, in iteration (recency) order: oldest first. */
    var entries: seq<Entry<V>>
    const maxSize: int

    ghost predicate Valid()
      reads this
    {
      DistinctKeys(entries) && |entries| <= Capacity(maxSize)
    }

    constructor (maxSize: int)
      ensures Valid()
      ensures this.maxSize == maxSize && entries == []
    {
      this.maxSize := maxSize;
      entries := [];
    }

    /** `get(key)`: returns the stored value (`None` for `null`) and refreshes a hit's recency. */
    method Get(key: string) returns (r: Option<V>)
      requires Valid()
      modifies this
      ensures Valid()
      ensures r == Lookup(old(entries), key)
      ensures entries == Touched(old(entries), key)
    {
      if IndexOf(entries, key) != -1 {
        var value := Lookup(entries, key).value;
        entries := Delete(entries, key);
        entries := Insert(entries, key, value);
        return Some(value);
      }
      return None;
    }

    /** `set(key, value)`: evicts the oldest entry when full, then stores the pair. */
    method Set(key: string, value: V)
      requires Valid()
      modifies this
      ensures Valid()
      ensures entries == AfterSet(old(entries), maxSize, key, value)
    {
      if |entries| >= maxSize {
        if |entries| > 0 {
          var firstKey := entries[0].key;
          DeleteOldest(entries);
          entries := Delete(entries, firstKey);
        }
      }
      AfterSetWithinCapacity(old(entries), maxSize, key, value);
      entries := Insert(entries, key, value);
    }
  }

  /** Deleting the first key in iteration order drops exactly the first entry. */
  lemma DeleteOldest<V>(s: seq<Entry<V>>)
    requires DistinctKeys(s) && |s| > 0
    ensures Delete(s, s[0].key) == s[1..]
  {
  }

  /** `set` never lets the cache grow beyond its capacity. */
  lemma AfterSetWithinCapacity<V>(s: seq<Entry<V>>, maxSize: int, key: string, value: V)
    requires DistinctKeys(s) && |s| <= Capacity(maxSize)
    ensures |AfterSet(s, maxSize, key, value)| <= Capacity(maxSize)
  {
  }

  /**
   * `get` of a present key returns its value and moves exactly that entry to
   * the newest end; the other entries keep their relative order and every
   * key keeps its value.
   */
  lemma GetMovesHitToNewest<V>(s: seq<Entry<V>>, key: string)
    requires DistinctKeys(s)
    requires Lookup(s, key).Some?
    ensures var i := IndexOf(s, key);
      Touched(s, key) == s[..i] + s[i + 1..] + [s[i]]
    ensures DistinctKeys(Touched(s, key))
    ensures forall k :: Lookup(Touched(s, key), k) == Lookup(s, k)
  {
    var i := IndexOf(s, key);
    var d := Delete(s, key);
    assert Touched(s, key) == s[..i] + s[i + 1..] + [s[i]] by {
      assert d == s[..i] + s[i + 1..];
    }
    assert forall k :: Lookup(Touched(s, key), k) == Lookup(s, k) by {
      AppendNew(d, key, s[i].value);
    }
  }

  /** Below capacity `set` evicts nothing: a new key is appended, an existing key stays in place. */
  lemma SetBelowCapacity<V>(s: seq<Entry<V>>, maxSize: int, key: string, value: V)
    requires DistinctKeys(s) && |s| < maxSize
    ensures Lookup(s, key).None? ==> AfterSet(s, maxSize, key, value) == s + [Entry(key, value)]
    ensures Lookup(s, key).Some? ==> AfterSet(s, maxSize, key, value) == s[IndexOf(s, key) := Entry(key, value)]
  {
  }

  /**
   * At capacity `set` drops the oldest entry first, whatever `key` is:
   * - when `key` is the oldest key, it comes back at the newest end and the size is unchanged;
   * - when `key` is present elsewhere, it is overwritten in place and the cache ends up one entry smaller;
   * - when `key` is new, it is appended after the remaining entries.
   */
  lemma SetAtCapacityEvictsOldest<V>(s: seq<Entry<V>>, maxSize: int, key: string, value: V)
    requires DistinctKeys(s) && |s| >= maxSize && |s| > 0
    ensures key != s[0].key ==> Lookup(AfterSet(s, maxSize, key, value), s[0].key) == None
    ensures key == s[0].key ==> AfterSet(s, maxSize, key, value) == s[1..] + [Entry(key, value)]
    ensures key != s[0].key && Lookup(s, key).Some? ==>
      AfterSet(s, maxSize, key, value) == s[1..][IndexOf(s[1..], key) := Entry(key, value)] &&
      |AfterSet(s, maxSize, key, value)| == |s| - 1
    ensures Lookup(s, key).None? ==> AfterSet(s, maxSize, key, value) == s[1..] + [Entry(key, value)]
  {
    var t := s[1..];
    assert forall j :: 0 <= j < |t| ==> t[j].key != s[0].key;
    if key == s[0].key {
      assert Lookup(t, key).None?;
    } else if Lookup(s, key).Some? {
      assert Lookup(t, key).Some?;
    }
  }

  /** Right after `set(key, value)`, `get(key)` returns `value`. */
  lemma GetAfterSet<V>(s: seq<Entry<V>>, maxSize: int, key: string, value: V)
    requires DistinctKeys(s)
    ensures Lookup(AfterSet(s, maxSize, key, value), key) == Some(value)
  {
  }

  /** The entries after a run of `set` calls with no `get` in between. */
  function SetAll<V>(s: seq<Entry<V>>, maxSize: int, pairs: seq<Entry<V>>): (r: seq<Entry<V>>)
    requires DistinctKeys(s)
    ensures DistinctKeys(r)
    decreases |pairs|
  {
    if |pairs| == 0 then s
    else
      var last := pairs[|pairs| - 1];
      AfterSet(SetAll(s, maxSize, pairs[..|pairs| - 1]), maxSize, last.key, last.value)
  }

  /** Every prefix of a map with distinct keys has distinct keys. */
  lemma DistinctPrefix<V>(s: seq<Entry<V>>, n: int)
    requires DistinctKeys(s) && 0 <= n <= |s|
    ensures DistinctKeys(s[..n])
  {
  }

  /** While there is room, each new key is appended in the order it was set. */
  lemma {:induction false} FillInOrder<V>(s: seq<Entry<V>>, maxSize: int, pairs: seq<Entry<V>>)
    requires DistinctKeys(s + pairs)
    requires |s| + |pairs| <= maxSize
    ensures DistinctKeys(s)
    ensures SetAll(s, maxSize, pairs) == s + pairs
    decreases |pairs|
  {
    var all := s + pairs;
    assert s == all[..|s|];
    DistinctPrefix(all, |s|);
    if |pairs| == 0 {
      assert all == s;
    } else {
      var n := |pairs| - 1;
      var init := pairs[..n];
      assert s + init == all[..|s| + n];
      DistinctPrefix(all, |s| + n);
      FillInOrder(s, maxSize, init);
      assert all[|s| + n] == pairs[n];
      assert Lookup(s + init, pairs[n].key).None? by {
        forall j | 0 <= j < |s + init|
          ensures (s + init)[j].key != pairs[n].key
        {
          assert (s + init)[j] == all[j];
        }
      }
      var last := pairs[n];
      assert pairs[..|pairs| - 1] == init;
      assert SetAll(s, maxSize, pairs) == AfterSet(s + init, maxSize, last.key, last.value);
      assert AfterSet(s + init, maxSize, last.key, last.value) == Insert(s + init, last.key, last.value);
      assert (s + init) + [last] == all;
    }
  }

  /** `get` of the oldest key moves it behind all the others. */
  lemma TouchOldest<V>(s: seq<Entry<V>>)
    requires DistinctKeys(s) && |s| > 0
    ensures Touched(s, s[0].key) == s[1..] + [s[0]]
    ensures DistinctKeys(s[1..] + [s[0]])
  {
    assert IndexOf(s, s[0].key) == 0;
    assert s[..0] + s[1..] == s[1..];
    GetMovesHitToNewest(s, s[0].key);
  }

  /** On a full cache, `set` of a key not among the survivors drops the oldest and appends. */
  lemma EvictAndAppend<V>(s: seq<Entry<V>>, maxSize: int, e: Entry<V>)
    requires DistinctKeys(s) && |s| == maxSize && maxSize >= 1
    requires Lookup(s[1..], e.key).None?
    ensures AfterSet(s, maxSize, e.key, e.value) == s[1..] + [e]
  {
  }

  /** Setting `maxSize + 1` distinct keys into an empty cache evicts exactly the first one. */
  lemma OverflowEvictsFirstInserted<V>(maxSize: int, pairs: seq<Entry<V>>)
    requires maxSize >= 1 && |pairs| == maxSize + 1
    requires DistinctKeys(pairs)
    ensures SetAll([], maxSize, pairs) == pairs[1..]
  {
    FillAllButLast(maxSize, pairs);
    EvictFirstOfPrefix(maxSize, pairs);
    DropFirstAppendLast(pairs, maxSize);
  }

  /** The overflowing `set` drops the first of the `maxSize` keys and appends the new one. */
  lemma EvictFirstOfPrefix<V>(maxSize: int, pairs: seq<Entry<V>>)
    requires maxSize >= 1 && |pairs| == maxSize + 1
    requires DistinctKeys(pairs)
    ensures DistinctKeys(pairs[..maxSize])
    ensures AfterSet(pairs[..maxSize], maxSize, pairs[maxSize].key, pairs[maxSize].value)
      == pairs[..maxSize][1..] + [pairs[maxSize]]
  {
    var init := pairs[..maxSize];
    var last := pairs[maxSize];
    DistinctPrefix(pairs, maxSize);
    assert Lookup(init[1..], last.key).None? by {
      forall j | 0 <= j < |init[1..]| ensures init[1..][j].key != last.key {
        assert init[1..][j] == pairs[j + 1];
      }
    }
    EvictAndAppend(init, maxSize, last);
  }

  lemma DropFirstAppendLast<T>(s: seq<T>, n: int)
    requires n >= 1 && |s| == n + 1
    ensures s[..n][1..] + [s[n]] == s[1..]
  {
  }

  /** Before the overflowing `set`, the first `maxSize` keys fill the cache in order. */
  lemma FillAllButLast<V>(maxSize: int, pairs: seq<Entry<V>>)
    requires maxSize >= 1 && |pairs| == maxSize + 1
    requires DistinctKeys(pairs)
    ensures DistinctKeys(pairs[..maxSize])
    ensures SetAll([], maxSize, pairs)
      == AfterSet(pairs[..maxSize], maxSize, pairs[maxSize].key, pairs[maxSize].value)
  {
    var init := pairs[..maxSize];
    assert [] + init == init;
    DistinctPrefix(pairs, maxSize);
    FillInOrder([], maxSize, init);
    assert pairs[..|pairs| - 1] == init;
  }

  /**
   * A `get` on the oldest key of a full cache (filled in order, as
   * `FillInOrder` shows) protects it: the next-oldest key is evicted by the
   * following `set` instead, and the touched key survives just before the new one.
   */
  lemma GetProtectsFromEviction<V>(maxSize: int, pairs: seq<Entry<V>>)
    requires maxSize >= 2 && |pairs| == maxSize + 1
    requires DistinctKeys(pairs)
    ensures DistinctKeys(pairs[..maxSize])
    ensures AfterSet(Touched(pairs[..maxSize], pairs[0].key), maxSize, pairs[maxSize].key, pairs[maxSize].value)
      == pairs[2..maxSize] + [pairs[0], pairs[maxSize]]
  {
    var last := pairs[maxSize];
    var touched := TouchFirstOfPrefix(maxSize, pairs);
    EvictAndAppend(touched, maxSize, last);
    assert touched[1..] + [last] == pairs[2..maxSize] + [pairs[0], last];
  }

  /** The entries after filling `pairs[..maxSize]` and reading back its oldest key. */
  lemma TouchFirstOfPrefix<V>(maxSize: int, pairs: seq<Entry<V>>) returns (touched: seq<Entry<V>>)
    requires maxSize >= 2 && |pairs| == maxSize + 1
    requires DistinctKeys(pairs)
    ensures DistinctKeys(pairs[..maxSize]) && DistinctKeys(touched) && |touched| == maxSize
    ensures Touched(pairs[..maxSize], pairs[0].key) == touched
    ensures touched[1..] == pairs[2..maxSize] + [pairs[0]]
    ensures Lookup(touched[1..], pairs[maxSize].key).None?
  {
    var init := pairs[..maxSize];
    touched := init[1..] + [pairs[0]];
    DistinctPrefix(pairs, maxSize);
    TouchOldest(init);
    assert touched[1..] == pairs[2..maxSize] + [pairs[0]];
    forall j | 0 <= j < |touched[1..]|
      ensures touched[1..][j].key != pairs[maxSize].key
    {
      if j < maxSize - 2 {
        assert touched[1..][j] == pairs[j + 2];
      } else {
        assert touched[1..][j] == pairs[0];
      }
    }
  }
}

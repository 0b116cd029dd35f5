/**
 * The abstract behaviour of the single-threaded LRU cache.
 *
 * The cache's contents are a sequence of entries ordered most recently used
 * first: the head of the sequence is the head of the C# LinkedList, the last
 * element is its tail (the entry evicted next). Every public operation of the
 * cache is given here as a function on that sequence, returning the value the
 * C# member returns (or the exception it raises) together with the contents it
 * leaves behind. The class in module LruCacheModel is proved against these
 * functions, and the lemmas below say what they mean.
 */
module LruSpec {

  datatype Option<T> = None | Some(value: T)

  /** The record held by each list node (LruCacheValue / LinkedListValue). */
  datatype Entry<K, V> = Entry(key: K, value: V)

  /** The exceptions that escape the cache, one constructor per cause. */
  datatype Error =
    | DuplicateKey  // Dictionary.Add on a key that is already present (ArgumentException)
    | EmptyList     // RemoveOldest reads Last of an empty list (NullReferenceException)
    | NullNode      // LinkedList.Remove(null) after Dictionary.Remove found nothing (ArgumentNullException)
    | KeyNotFound   // the indexer on an absent key (KeyNotFoundException)

  datatype Result<T> = Ok(value: T) | Err(error: Error)

  /** What an operation returns and the contents it leaves, most recent first. */
  datatype Step<K, V, T> = Step(result: Result<T>, entries: seq<Entry<K, V>>)

  // ---------------------------------------------------------------------------
  // Lookup and removal on the recency sequence

  /** The value of the first entry carrying key k, if any. */
  function Lookup<K(==), V>(s: seq<Entry<K, V>>, k: K): (r: Option<V>)
  {
    if s == [] then None
    else if s[0].key == k then Some(s[0].value)
    else Lookup(s[1..], k)
  }

  predicate HasKey<K(==), V>(s: seq<Entry<K, V>>, k: K)
  {
    Lookup(s, k).Some?
  }

  /** No key is held twice: the C# dictionary admits each key once. */
  predicate DistinctKeys<K(==), V>(s: seq<Entry<K, V>>)
  {
    forall i, j | 0 <= i < j < |s| :: s[i].key != s[j].key
  }

  /** s with the first entry carrying key k unlinked. */
  function Without<K(==), V>(s: seq<Entry<K, V>>, k: K): (r: seq<Entry<K, V>>)
  {
    if s == [] then []
    else if s[0].key == k then s[1..]
    else [s[0]] + Without(s[1..], k)
  }

  // ---------------------------------------------------------------------------
  // The operations of the cache

  /** RemoveOldest: unlink the tail; an empty list has no Last node. */
  function RemoveOldest<K(==), V>(s: seq<Entry<K, V>>): (st: Step<K, V, ()>)
  {
    if s == [] then Step(Err(EmptyList), s)
    else Step(Ok(()), s[..|s| - 1])
  }

  /**
   * Add: when Count == maxSize, RemoveOldest first; then Dictionary.Add, which
   * fails on a key still present, and AddFirst. Add returns the value added.
   */
  function Add<K(==), V>(s: seq<Entry<K, V>>, maxSize: int, k: K, v: V): (st: Step<K, V, V>)
  {
    var evicted := if |s| == maxSize then RemoveOldest(s) else Step(Ok(()), s);
    if evicted.result.Err? then Step(Err(evicted.result.error), evicted.entries)
    else if HasKey(evicted.entries, k) then Step(Err(DuplicateKey), evicted.entries)
    else Step(Ok(v), [Entry(k, v)] + evicted.entries)
  }

  /** Remove: unlink the key's node and return its value. */
  function Remove<K(==), V>(s: seq<Entry<K, V>>, k: K): (st: Step<K, V, V>)
  {
    match Lookup(s, k)
    case None => Step(Err(NullNode), s)
    case Some(v) => Step(Ok(v), Without(s, k))
  }

  /** The touch done by TryGetValue on a hit: the entry moves to the front. A miss changes nothing. */
  function Touch<K(==), V>(s: seq<Entry<K, V>>, k: K): (t: seq<Entry<K, V>>)
  {
    match Lookup(s, k)
    case None => s
    case Some(v) => [Entry(k, v)] + Without(s, k)
  }

  /** UpdateValue (the indexer setter): the key's entry, with the new value, moves to the front. */
  function UpdateValue<K(==), V>(s: seq<Entry<K, V>>, k: K, v: V): (st: Step<K, V, ()>)
  {
    if !HasKey(s, k) then Step(Err(KeyNotFound), s)
    else Step(Ok(()), [Entry(k, v)] + Without(s, k))
  }

  // ---------------------------------------------------------------------------
  // Lookup and removal: what they mean

  /** A key is found exactly when some entry carries it. */
  lemma {:induction false} HasKeyIff<K, V>(s: seq<Entry<K, V>>, k: K)
    ensures HasKey(s, k) <==> exists i :: 0 <= i < |s| && s[i].key == k
  {
    if s != [] {
      HasKeyIff(s[1..], k);
      if s[0].key != k {
        if exists i :: 0 <= i < |s| && s[i].key == k {
          var i :| 0 <= i < |s| && s[i].key == k;
          assert s[1..][i - 1].key == k;
        }
        if exists i :: 0 <= i < |s[1..]| && s[1..][i].key == k {
          var i :| 0 <= i < |s[1..]| && s[1..][i].key == k;
          assert s[i + 1].key == k;
        }
      }
    }
  }

  /** With distinct keys, looking up the key at position i yields the value at position i. */
  lemma {:induction false} LookupAt<K, V>(s: seq<Entry<K, V>>, i: nat)
    requires DistinctKeys(s) && i < |s|
    ensures Lookup(s, s[i].key) == Some(s[i].value)
  {
    if i > 0 {
      assert s[0].key != s[i].key;
      assert s[1..][i - 1] == s[i];
      LookupAt(s[1..], i - 1);
    }
  }

  /** Without(s, k) on a present key is s with the one position holding k cut out. */
  lemma {:induction false} WithoutAt<K, V>(s: seq<Entry<K, V>>, i: nat)
    requires DistinctKeys(s) && i < |s|
    ensures Without(s, s[i].key) == s[..i] + s[i + 1..]
  {
    if i > 0 {
      assert s[0].key != s[i].key;
      assert s[1..][i - 1] == s[i];
      WithoutAt(s[1..], i - 1);
      assert [s[0]] + s[1..][..i - 1] == s[..i];
      assert s[1..][i..] == s[i + 1..];
    }
  }

  /** Without on an absent key changes nothing. */
  lemma {:induction false} WithoutAbsent<K, V>(s: seq<Entry<K, V>>, k: K)
    requires !HasKey(s, k)
    ensures Without(s, k) == s
  {
    if s != [] {
      WithoutAbsent(s[1..], k);
    }
  }

  /** Cutting one position out of a sequence with distinct keys keeps them distinct. */
  lemma DistinctCut<K, V>(s: seq<Entry<K, V>>, i: nat)
    requires DistinctKeys(s) && i < |s|
    ensures DistinctKeys(s[..i] + s[i + 1..])
  {
    var t := s[..i] + s[i + 1..];
    forall a, b | 0 <= a < b < |t| ensures t[a].key != t[b].key {
      var a' := if a < i then a else a + 1;
      var b' := if b < i then b else b + 1;
      assert t[a] == s[a'] && t[b] == s[b'];
    }
  }

  /**
   * Unlinking key k removes exactly k: every other key keeps its value, the
   * keys stay distinct and the length drops by one when k was present.
   */
  lemma WithoutSpec<K, V>(s: seq<Entry<K, V>>, k: K)
    requires DistinctKeys(s)
    ensures DistinctKeys(Without(s, k))
    ensures |Without(s, k)| == if HasKey(s, k) then |s| - 1 else |s|
    ensures !HasKey(Without(s, k), k)
    ensures forall j :: j != k ==> Lookup(Without(s, k), j) == Lookup(s, j)
  {
    HasKeyIff(s, k);
    if HasKey(s, k) {
      var i :| 0 <= i < |s| && s[i].key == k;
      WithoutAt(s, i);
      DistinctCut(s, i);
      CutDropsKey(s, i);
      forall j | j != k ensures Lookup(s[..i] + s[i + 1..], j) == Lookup(s, j) {
        LookupCut(s, i, j);
      }
    } else {
      WithoutAbsent(s, k);
    }
  }

  /** Cutting out the position that holds a key leaves no entry with that key. */
  lemma CutDropsKey<K, V>(s: seq<Entry<K, V>>, i: nat)
    requires DistinctKeys(s) && i < |s|
    ensures !HasKey(s[..i] + s[i + 1..], s[i].key)
  {
    var t := s[..i] + s[i + 1..];
    forall a | 0 <= a < |t| ensures t[a].key != s[i].key {
      assert t[a] == if a < i then s[a] else s[a + 1];
    }
    HasKeyIff(t, s[i].key);
  }

  /** Looking up any key other than the one at position i is unaffected by cutting position i out. */
  lemma {:induction false} LookupCut<K, V>(s: seq<Entry<K, V>>, i: nat, j: K)
    requires i < |s| && s[i].key != j
    ensures Lookup(s[..i] + s[i + 1..], j) == Lookup(s, j)
  {
    if i == 0 {
      assert s[..0] + s[1..] == s[1..];
    } else {
      var t := s[..i] + s[i + 1..];
      assert t[0] == s[0];
      assert t[1..] == s[1..][..i - 1] + s[1..][i..];
      LookupCut(s[1..], i - 1, j);
    }
  }

  // ---------------------------------------------------------------------------
  // Add

  /**
   * RemoveOldest fails only on an empty list; otherwise it drops exactly the
   * tail entry: its key is gone, Count drops by one, and every other key keeps
   * its value.
   */
  lemma RemoveOldestDropsTail<K, V>(s: seq<Entry<K, V>>)
    requires DistinctKeys(s)
    ensures var st := RemoveOldest(s);
      && (st.result.Ok? <==> s != [])
      && (st.result.Err? ==> st.result.error == EmptyList && st.entries == s)
      && (s != [] ==>
            && |st.entries| == |s| - 1
            && DistinctKeys(st.entries)
            && !HasKey(st.entries, s[|s| - 1].key)
            && forall j :: j != s[|s| - 1].key ==> Lookup(st.entries, j) == Lookup(s, j))
  {
    if s != [] {
      var n := |s| - 1;
      WithoutAt(s, n);
      assert s[..n] + s[n + 1..] == s[..n];
      WithoutSpec(s, s[n].key);
    }
  }

  /**
   * Add succeeds exactly when maxSize is not 0 and the key is absent once the
   * oldest entry has been evicted: either the key is new, or the cache is full
   * and the key is the oldest entry, which the eviction has just removed.
   */
  lemma AddSucceedsIff<K, V>(s: seq<Entry<K, V>>, maxSize: int, k: K, v: V)
    requires DistinctKeys(s) && (0 <= maxSize ==> |s| <= maxSize)
    ensures Add(s, maxSize, k, v).result.Ok? <==>
      maxSize != 0 && (!HasKey(s, k) || (|s| == maxSize && s[|s| - 1].key == k))
    ensures Add(s, maxSize, k, v).result.Ok? ==> Add(s, maxSize, k, v).result.value == v
  {
    if |s| == maxSize && s != [] {
      var n := |s| - 1;
      var kept := s[..n];
      assert s == kept + [s[n]];
      HasKeyIff(s, k);
      HasKeyIff(kept, k);
      if HasKey(kept, k) {
        var i :| 0 <= i < |kept| && kept[i].key == k;
        assert s[i].key == k && i != n;
      }
      if HasKey(s, k) && s[n].key != k {
        var i :| 0 <= i < |s| && s[i].key == k;
        assert kept[i].key == k;
      }
    }
  }

  /**
   * A successful Add puts (k, v) at the front; when the cache was full it
   * evicts exactly the tail entry and nothing else, otherwise it evicts nothing.
   */
  lemma AddPutsFrontAndEvictsTail<K, V>(s: seq<Entry<K, V>>, maxSize: int, k: K, v: V)
    requires Add(s, maxSize, k, v).result.Ok?
    ensures var after := Add(s, maxSize, k, v).entries;
      && after[0] == Entry(k, v)
      && Lookup(after, k) == Some(v)
      && (|s| == maxSize ==> after == [Entry(k, v)] + s[..|s| - 1])
      && (|s| != maxSize ==> after == [Entry(k, v)] + s)
  {
  }

  /**
   * After a successful Add of a new key into a full cache, the evicted tail key
   * is gone and every other key keeps its value; into a cache that is not full,
   * every other key keeps its value.
   */
  lemma AddKeepsOthers<K, V>(s: seq<Entry<K, V>>, maxSize: int, k: K, v: V, j: K)
    requires DistinctKeys(s) && Add(s, maxSize, k, v).result.Ok? && j != k
    ensures var after := Add(s, maxSize, k, v).entries;
      && (|s| == maxSize && j == s[|s| - 1].key ==> !HasKey(after, j))
      && (|s| != maxSize || j != s[|s| - 1].key ==> Lookup(after, j) == Lookup(s, j))
  {
    var after := Add(s, maxSize, k, v).entries;
    if |s| == maxSize {
      var n := |s| - 1;
      assert after[1..] == s[..n] + s[n + 1..];
      if j == s[n].key {
        WithoutAt(s, n);
        WithoutSpec(s, j);
      } else {
        LookupCut(s, n, j);
      }
    }
  }

  /** Add keeps the keys distinct and, for a non-negative maxSize, Count <= maxSize. */
  lemma AddKeepsInvariant<K, V>(s: seq<Entry<K, V>>, maxSize: int, k: K, v: V)
    requires DistinctKeys(s) && (0 <= maxSize ==> |s| <= maxSize)
    ensures var after := Add(s, maxSize, k, v).entries;
      DistinctKeys(after) && (0 <= maxSize ==> |after| <= maxSize)
  {
    var evicted := if |s| == maxSize then RemoveOldest(s) else Step(Ok(()), s);
    var e := evicted.entries;
    assert DistinctKeys(e);
    if evicted.result.Ok? && !HasKey(e, k) {
      HasKeyIff(e, k);
      var t := [Entry(k, v)] + e;
      forall a, b | 0 <= a < b < |t| ensures t[a].key != t[b].key {
        assert t[b] == e[b - 1];
      }
    }
  }

  /**
   * A failed Add on a duplicate key has still evicted the oldest entry when the
   * cache was full: the eviction runs before Dictionary.Add throws.
   */
  lemma FailedAddStillEvicts<K, V>(s: seq<Entry<K, V>>, maxSize: int, k: K, v: V)
    requires Add(s, maxSize, k, v).result == Err(DuplicateKey)
    ensures |s| == maxSize ==> Add(s, maxSize, k, v).entries == s[..|s| - 1]
    ensures |s| != maxSize ==> Add(s, maxSize, k, v).entries == s
    ensures HasKey(s, k)
  {
    if |s| == maxSize {
      var n := |s| - 1;
      HasKeyIff(s[..n], k);
      var i :| 0 <= i < n && s[..n][i].key == k;
      HasKeyIff(s, k);
    }
  }

  /** With maxSize == 0, Add always fails on the missing Last node and changes nothing. */
  lemma AddWithZeroCapacityFails<K, V>(s: seq<Entry<K, V>>, k: K, v: V)
    requires s == []
    ensures Add(s, 0, k, v) == Step(Err(EmptyList), s)
  {
  }

  // ---------------------------------------------------------------------------
  // Remove, touch and update

  /**
   * Remove succeeds exactly on a present key, returns its value, and leaves
   * every other key, value and relative order as it was.
   */
  lemma RemoveDeletesOnlyKey<K, V>(s: seq<Entry<K, V>>, k: K)
    requires DistinctKeys(s)
    ensures var st := Remove(s, k);
      && (st.result.Ok? <==> HasKey(s, k))
      && (st.result.Ok? ==> Some(st.result.value) == Lookup(s, k) && |st.entries| == |s| - 1)
      && (st.result.Err? ==> st.result.error == NullNode && st.entries == s)
      && DistinctKeys(st.entries) && !HasKey(st.entries, k)
      && (forall j :: j != k ==> Lookup(st.entries, j) == Lookup(s, j))
  {
    WithoutSpec(s, k);
  }

  /** Removing the entry at position i keeps the others in the same relative order. */
  lemma RemoveKeepsOrder<K, V>(s: seq<Entry<K, V>>, i: nat)
    requires DistinctKeys(s) && i < |s|
    ensures Remove(s, s[i].key) == Step(Ok(s[i].value), s[..i] + s[i + 1..])
  {
    LookupAt(s, i);
    WithoutAt(s, i);
  }

  /**
   * A touch keeps Count, the key set and every value; it puts the touched key
   * at the front and leaves the relative order of all other entries alone.
   */
  lemma TouchKeepsEntries<K, V>(s: seq<Entry<K, V>>, k: K)
    requires DistinctKeys(s)
    ensures var t := Touch(s, k);
      && |t| == |s| && DistinctKeys(t)
      && (forall j :: Lookup(t, j) == Lookup(s, j))
      && Without(t, k) == Without(s, k)
      && (HasKey(s, k) ==> t[0].key == k)
  {
    WithoutSpec(s, k);
    if HasKey(s, k) {
      var v := Lookup(s, k).value;
      var t := [Entry(k, v)] + Without(s, k);
      AddKeepsInvariant(Without(s, k), -1, k, v);
      assert Add(Without(s, k), -1, k, v).entries == t;
    } else {
      WithoutAbsent(s, k);
    }
  }

  /**
   * Re-adding a key just removed never evicts, whatever maxSize is: the removal
   * leaves Count below maxSize. This is why TryGetValue and UpdateValue, which
   * are remove-then-add, keep Count and always succeed on a present key.
   */
  lemma ReAddNeverEvicts<K, V>(s: seq<Entry<K, V>>, maxSize: int, k: K, v: V)
    requires DistinctKeys(s) && (0 <= maxSize ==> |s| <= maxSize) && HasKey(s, k)
    ensures var removed := Remove(s, k);
      && removed.result == Ok(Lookup(s, k).value)
      && Add(removed.entries, maxSize, k, v) == Step(Ok(v), [Entry(k, v)] + Without(s, k))
  {
    WithoutSpec(s, k);
  }

  /**
   * UpdateValue succeeds exactly on a present key; then the key holds the new
   * value at the front, Count is kept, and every other entry keeps its value
   * and relative order.
   */
  lemma UpdateValueRenews<K, V>(s: seq<Entry<K, V>>, k: K, v: V)
    requires DistinctKeys(s)
    ensures var st := UpdateValue(s, k, v);
      && (st.result.Ok? <==> HasKey(s, k))
      && (st.result.Err? ==> st.result.error == KeyNotFound && st.entries == s)
      && |st.entries| == |s| && DistinctKeys(st.entries)
      && (st.result.Ok? ==> st.entries[0] == Entry(k, v) && Lookup(st.entries, k) == Some(v))
      && (forall j :: j != k ==> Lookup(st.entries, j) == Lookup(s, j))
      && Without(st.entries, k) == Without(s, k)
  {
    WithoutSpec(s, k);
    if HasKey(s, k) {
      AddKeepsInvariant(Without(s, k), -1, k, v);
      assert Add(Without(s, k), -1, k, v).entries == UpdateValue(s, k, v).entries;
    } else {
      WithoutAbsent(s, k);
    }
  }
}

/**
 * What a run of Adds does to the cache, and the behaviour the unit tests
 * check, stated for every capacity and every choice of fresh keys rather than
 * for the tests' capacity of 20.
 */
module LruScenarios {
  import opened LruSpec
  import LruCacheModel

  function Reverse<T>(s: seq<T>): (r: seq<T>)
  {
    if s == [] then [] else Reverse(s[1..]) + [s[0]]
  }

  /** The first n elements of s, or all of s when it is shorter. */
  function Take<T>(s: seq<T>, n: nat): (r: seq<T>)
  {
    if |s| <= n then s else s[..n]
  }

  /** No key of es is already in the cache. */
  predicate Fresh<K(==), V>(es: seq<Entry<K, V>>, s: seq<Entry<K, V>>)
  {
    forall i | 0 <= i < |es| :: !HasKey(s, es[i].key)
  }

  /** Add each entry of es in turn, oldest first, as the tests' AddCacheEntries helper does. */
  function AddAll<K(==), V>(s: seq<Entry<K, V>>, maxSize: int, es: seq<Entry<K, V>>): (r: seq<Entry<K, V>>)
    decreases |es|
  {
    if es == [] then s
    else AddAll(Add(s, maxSize, es[0].key, es[0].value).entries, maxSize, es[1..])
  }

  lemma {:induction false} ReverseAt<T>(s: seq<T>)
    ensures |Reverse(s)| == |s|
    ensures forall i :: 0 <= i < |s| ==> Reverse(s)[i] == s[|s| - 1 - i]
  {
    if s != [] {
      ReverseAt(s[1..]);
    }
  }

  lemma TakeOfAppendTake<T>(a: seq<T>, b: seq<T>, n: nat)
    ensures Take(a + Take(b, n), n) == Take(a + b, n)
  {
    if |b| > n {
      var x, y := a + Take(b, n), a + b;
      if |x| > n {
        assert x[..n] == y[..n] by {
          forall i | 0 <= i < n ensures x[i] == y[i] {
            if i >= |a| {
              assert x[i] == b[i - |a|];
            }
          }
        }
      } else {
        assert |a| == 0;
        assert x == b[..n];
      }
    }
  }

  /** A prefix of a sequence with distinct keys has distinct keys, and finds exactly the keys in its range. */
  lemma TakeKeys<K, V>(x: seq<Entry<K, V>>, n: nat, i: nat)
    requires DistinctKeys(x) && i < |x|
    ensures DistinctKeys(Take(x, n))
    ensures i < n ==> Lookup(Take(x, n), x[i].key) == Some(x[i].value)
    ensures i >= n ==> !HasKey(Take(x, n), x[i].key)
  {
    var t := Take(x, n);
    assert forall a :: 0 <= a < |t| ==> t[a] == x[a];
    if i < n {
      LookupAt(t, i);
    } else {
      HasKeyIff(t, x[i].key);
    }
  }

  /** Fresh keys in es, distinct among themselves, make Reverse(es) + s a sequence with distinct keys. */
  lemma DistinctPrefixed<K, V>(es: seq<Entry<K, V>>, s: seq<Entry<K, V>>)
    requires DistinctKeys(es) && DistinctKeys(s) && Fresh(es, s)
    ensures DistinctKeys(Reverse(es) + s)
  {
    ReverseAt(es);
    var x := Reverse(es) + s;
    var n := |es|;
    forall a, b | 0 <= a < b < |x| ensures x[a].key != x[b].key {
      if b < n {
        assert x[a] == es[n - 1 - a] && x[b] == es[n - 1 - b];
      } else if a < n {
        assert x[a] == es[n - 1 - a] && x[b] == s[b - n];
        HasKeyIff(s, x[a].key);
      }
    }
  }

  /** One Add of a fresh key: it is Take([e] + s, maxSize), and the rest of the run stays fresh. */
  lemma AddFreshStep<K, V>(s: seq<Entry<K, V>>, maxSize: int, es: seq<Entry<K, V>>)
    requires 1 <= maxSize && DistinctKeys(s) && |s| <= maxSize
    requires es != [] && DistinctKeys(es) && Fresh(es, s)
    ensures var s1 := Add(s, maxSize, es[0].key, es[0].value).entries;
      && s1 == Take([es[0]] + s, maxSize)
      && DistinctKeys(s1) && |s1| <= maxSize
      && DistinctKeys(es[1..]) && Fresh(es[1..], s1)
  {
    var e := es[0];
    var s1 := Add(s, maxSize, e.key, e.value).entries;
    AddSucceedsIff(s, maxSize, e.key, e.value);
    AddPutsFrontAndEvictsTail(s, maxSize, e.key, e.value);
    AddKeepsInvariant(s, maxSize, e.key, e.value);
    forall i | 0 <= i < |es[1..]| ensures !HasKey(s1, es[1..][i].key) {
      var j := es[1..][i].key;
      assert j == es[i + 1].key && j != e.key;
      AddKeepsOthers(s, maxSize, e.key, e.value, j);
    }
  }

  /**
   * Adding fresh, distinct keys one by one to a cache of capacity maxSize >= 1
   * leaves the run, newest first, then the old contents, cut to maxSize entries
   * in all: each Add puts its entry at the front and evicts from the back only.
   */
  lemma {:induction false} AddAllFresh<K, V>(s: seq<Entry<K, V>>, maxSize: int, es: seq<Entry<K, V>>)
    requires 1 <= maxSize && DistinctKeys(s) && |s| <= maxSize
    requires DistinctKeys(es) && Fresh(es, s)
    ensures AddAll(s, maxSize, es) == Take(Reverse(es) + s, maxSize)
    decreases |es|
  {
    if es != [] {
      var e := es[0];
      var s1 := Add(s, maxSize, e.key, e.value).entries;
      AddFreshStep(s, maxSize, es);
      AddAllFresh(s1, maxSize, es[1..]);
      TakeOfRun(Reverse(es[1..]), e, s, maxSize);
      assert Reverse(es) == Reverse(es[1..]) + [e];
    }
  }

  /** Taking maxSize after each step is the same as taking maxSize once at the end. */
  lemma TakeOfRun<T>(r: seq<T>, e: T, s: seq<T>, maxSize: nat)
    ensures Take(r + Take([e] + s, maxSize), maxSize) == Take(r + [e] + s, maxSize)
  {
    TakeOfAppendTake(r, [e] + s, maxSize);
    assert r + ([e] + s) == r + [e] + s;
  }

  /**
   * Adding a key and then maxSize further fresh keys evicts that key, and
   * Count stays within maxSize (CacheTests: the oldest entry is removed).
   */
  lemma OldestGoneAfterFill<K, V>(s: seq<Entry<K, V>>, maxSize: int, k: K, v: V, es: seq<Entry<K, V>>)
    requires 1 <= maxSize && DistinctKeys(s) && |s| <= maxSize && !HasKey(s, k)
    requires |es| == maxSize && DistinctKeys([Entry(k, v)] + es) && Fresh([Entry(k, v)] + es, s)
    ensures var r := AddAll(Add(s, maxSize, k, v).entries, maxSize, es);
      !HasKey(r, k) && |r| == maxSize
  {
    var all := [Entry(k, v)] + es;
    assert all[1..] == es;
    AddAllFresh(s, maxSize, all);
    DistinctPrefixed(all, s);
    var x := Reverse(all) + s;
    ReverseAt(all);
    assert x[maxSize] == Entry(k, v);
    TakeKeys(x, maxSize, maxSize);
  }

  /**
   * In a full cache, touching any present key and then adding between 1 and
   * maxSize - 1 fresh keys keeps the touched entry, evicts the entry that the
   * touch left at the back, and leaves Count == maxSize.
   */
  lemma TouchedEntrySurvivesFill<K, V>(s: seq<Entry<K, V>>, maxSize: int, a: K, es: seq<Entry<K, V>>)
    requires DistinctKeys(s) && |s| == maxSize && HasKey(s, a)
    requires 1 <= |es| < maxSize && DistinctKeys(es) && Fresh(es, s)
    ensures var t := Touch(s, a);
      var r := AddAll(t, maxSize, es);
      && Lookup(r, a) == Lookup(s, a)
      && !HasKey(r, t[|t| - 1].key)
      && |r| == maxSize
  {
    var t := Touch(s, a);
    TouchKeepsFresh(s, a, es);
    AddAllFresh(t, maxSize, es);
    DistinctPrefixed(es, t);
    var x := Reverse(es) + t;
    ReverseAt(es);
    assert x[|es|] == t[0];
    TakeKeys(x, maxSize, |es|);
    assert x[|es| + maxSize - 1] == t[|t| - 1];
    TakeKeys(x, maxSize, |es| + maxSize - 1);
  }

  /** A touch of a present key puts it at the front and keeps fresh keys fresh. */
  lemma TouchKeepsFresh<K, V>(s: seq<Entry<K, V>>, a: K, es: seq<Entry<K, V>>)
    requires DistinctKeys(s) && HasKey(s, a) && Fresh(es, s)
    ensures var t := Touch(s, a);
      && |t| == |s| && DistinctKeys(t) && Fresh(es, t)
      && t[0] == Entry(a, Lookup(s, a).value)
  {
    var t := Touch(s, a);
    TouchKeepsEntries(s, a);
    forall n | 0 <= n < |es| ensures !HasKey(t, es[n].key) {
      assert Lookup(t, es[n].key) == Lookup(s, es[n].key);
    }
  }

  /**
   * The unit test's case: reading the oldest entry of a full cache and then
   * adding 1 to maxSize - 1 fresh keys keeps the entry read and evicts the
   * second oldest (CacheTests: fetching the oldest entry makes the second
   * oldest the one removed).
   */
  lemma ReadingOldestEvictsSecondOldest<K, V>(s: seq<Entry<K, V>>, maxSize: int, es: seq<Entry<K, V>>)
    requires DistinctKeys(s) && |s| == maxSize
    requires 1 <= |es| < maxSize && DistinctKeys(es) && Fresh(es, s)
    ensures var a := s[|s| - 1].key;
      var r := AddAll(Touch(s, a), maxSize, es);
      && Lookup(r, a) == Lookup(s, a)
      && !HasKey(r, s[|s| - 2].key)
      && |r| == maxSize
  {
    var n := |s| - 1;
    var a := s[n].key;
    HasKeyIff(s, a);
    TouchedEntrySurvivesFill(s, maxSize, a, es);
    LookupAt(s, n);
    WithoutAt(s, n);
    assert s[..n] + s[n + 1..] == s[..n];
    assert Touch(s, a) == [s[n]] + s[..n];
  }

  /**
   * Reading any entry but the oldest of a full cache and then adding 1 to
   * maxSize - 1 fresh keys keeps the entry read and evicts the oldest.
   */
  lemma ReadingNewerEvictsOldest<K, V>(s: seq<Entry<K, V>>, maxSize: int, a: K, es: seq<Entry<K, V>>)
    requires DistinctKeys(s) && |s| == maxSize && HasKey(s, a) && s[|s| - 1].key != a
    requires 1 <= |es| < maxSize && DistinctKeys(es) && Fresh(es, s)
    ensures var r := AddAll(Touch(s, a), maxSize, es);
      && Lookup(r, a) == Lookup(s, a)
      && !HasKey(r, s[|s| - 1].key)
      && |r| == maxSize
  {
    TouchKeepsLast(s, a);
    TouchedEntrySurvivesFill(s, maxSize, a, es);
  }

  /** Touching a key other than the oldest leaves the oldest entry at the back. */
  lemma TouchKeepsLast<K, V>(s: seq<Entry<K, V>>, a: K)
    requires DistinctKeys(s) && HasKey(s, a) && s[|s| - 1].key != a
    ensures |Touch(s, a)| == |s| && Touch(s, a)[|s| - 1] == s[|s| - 1]
  {
    var n := |s| - 1;
    var i :| 0 <= i < |s| && s[i].key == a by {
      HasKeyIff(s, a);
    }
    var rest := s[..i] + s[i + 1..];
    assert Touch(s, a) == [s[i]] + rest by {
      LookupAt(s, i);
      WithoutAt(s, i);
    }
    assert i < n && rest[n - 1] == s[n];
  }

  /**
   * In a full cache, setting an existing key through the indexer and then
   * adding up to maxSize - 1 fresh keys keeps that key with its new value and
   * leaves Count == maxSize (CacheTests: the value is updated and renewed).
   */
  lemma UpdatedEntrySurvivesFill<K, V>(s: seq<Entry<K, V>>, maxSize: int, u: K, v: V, es: seq<Entry<K, V>>)
    requires DistinctKeys(s) && |s| == maxSize && HasKey(s, u)
    requires |es| < maxSize && DistinctKeys(es) && Fresh(es, s)
    ensures var r := AddAll(UpdateValue(s, u, v).entries, maxSize, es);
      Lookup(r, u) == Some(v) && |r| == maxSize
  {
    var t := UpdateValue(s, u, v).entries;
    UpdateValueRenews(s, u, v);
    forall n | 0 <= n < |es| ensures !HasKey(t, es[n].key) {
      assert es[n].key != u;
    }
    AddAllFresh(t, maxSize, es);
    DistinctPrefixed(es, t);
    var x := Reverse(es) + t;
    ReverseAt(es);
    assert x[|es|] == Entry(u, v);
    TakeKeys(x, maxSize, |es|);
  }

  /**
   * A client of the class: capacity 2, add keys 1 and 2, read key 1, add key 3.
   * Reading key 1 renewed it, so key 2 is the entry evicted.
   */
  method TouchDecidesEviction() returns (read: int, added: Result<int>, has1: bool, has2: bool)
    ensures read == 10 && added == Ok(30)
    ensures has1 && !has2
  {
    var cache := new LruCacheModel.LruCache<int, int>(2, 0);
    assert Lookup([Entry(1, 10)], 2) == Lookup([], 2);
    var r := cache.Add(1, 10);
    r := cache.Add(2, 20);
    assert cache.Contents() == [Entry(2, 20), Entry(1, 10)];
    read := ReadOldest(cache);
    added := AddEvictsUntouched(cache);
    has1 := cache.ContainsKey(1);
    has2 := cache.ContainsKey(2);
  }

  /** Reading key 1, the oldest of two, returns its value and moves it to the front. */
  method ReadOldest(cache: LruCacheModel.LruCache<int, int>) returns (value: int)
    requires cache.Valid() && cache.maxSize == 2
    requires cache.Contents() == [Entry(2, 20), Entry(1, 10)]
    modifies cache
    ensures value == 10
    ensures cache.Valid()
    ensures cache.Contents() == [Entry(1, 10), Entry(2, 20)]
  {
    ghost var s := cache.Contents();
    assert s[1..] == [Entry(1, 10)];
    assert Lookup(s, 1) == Some(10);
    assert Without(s, 1) == [Entry(2, 20)];
    var found;
    found, value := cache.TryGetValue(1);
  }

  /** The cache holds 1 (just read) then 2; adding 3 succeeds and evicts 2. */
  method AddEvictsUntouched(cache: LruCacheModel.LruCache<int, int>) returns (r: Result<int>)
    requires cache.Valid() && cache.maxSize == 2
    requires cache.Contents() == [Entry(1, 10), Entry(2, 20)]
    modifies cache
    ensures r == Ok(30) && cache.Valid()
    ensures cache.Contents() == [Entry(3, 30), Entry(1, 10)]
    ensures !cache.ContainsKey(2) && cache.ContainsKey(1) && cache.ContainsKey(3)
    ensures cache.Count() == 2
  {
    ghost var s := cache.Contents();
    assert s[..1] == [Entry(1, 10)];
    assert Lookup([Entry(1, 10)], 3) == Lookup([], 3);
    assert LruSpec.Add(s, 2, 3, 30) == Step(Ok(30), [Entry(3, 30), Entry(1, 10)]);
    r := cache.Add(3, 30);
    assert cache.Contents() == [Entry(3, 30), Entry(1, 10)];
    assert !cache.ContainsKey(2) && cache.ContainsKey(1) && cache.ContainsKey(3);
  }
}

/**
 * The single-threaded LRU cache as the C# class keeps it: a Dictionary from
 * each key to its LinkedListNode, and a LinkedList of (Key, Value) records
 * ordered most recently used first. The linked list is a sequence of node
 * objects and the dictionary a map to those same objects, so "each index
 * entry points to a node carrying that key" is about node identity.
 *
 * Each method is proved against the matching function of LruSpec, applied to
 * the abstract contents before the call.
 */
module LruCacheModel {
  import opened LruSpec

  /** A LinkedListNode: it holds one record, fixed when the node is made. */
  class Node<K, V> {
    const entry: Entry<K, V>

    constructor (entry: Entry<K, V>)
      ensures this.entry == entry
    {
      this.entry := entry;
    }
  }

  /** The records of a run of nodes, in list order. */
  ghost function EntriesOf<K, V>(nodes: seq<Node<K, V>>): (s: seq<Entry<K, V>>)
    ensures |s| == |nodes|
    ensures forall i :: 0 <= i < |nodes| ==> s[i] == nodes[i].entry
  {
    seq(|nodes|, i requires 0 <= i < |nodes| => nodes[i].entry)
  }

  /** Each list node is indexed under its own key. */
  ghost predicate NodesIndexed<K, V>(list: seq<Node<K, V>>, dictionary: map<K, Node<K, V>>)
  {
    forall i :: 0 <= i < |list| ==>
      list[i].entry.key in dictionary && dictionary[list[i].entry.key] == list[i]
  }

  /** Each dictionary entry points to a list node carrying its key. */
  ghost predicate TargetsListed<K, V>(list: seq<Node<K, V>>, dictionary: map<K, Node<K, V>>)
  {
    forall k :: k in dictionary ==> dictionary[k].entry.key == k && dictionary[k] in list
  }

  /**
   * The dictionary and the list agree: same number of entries, each list key
   * held once, each list node indexed under its own key, and each dictionary
   * entry pointing to a list node that carries its key.
   */
  ghost predicate Indexed<K, V>(list: seq<Node<K, V>>, dictionary: map<K, Node<K, V>>)
  {
    && |dictionary| == |list|
    && DistinctKeys(EntriesOf(list))
    && NodesIndexed(list, dictionary)
    && TargetsListed(list, dictionary)
  }

  /** Unlinking the node at position i and dropping its key from the dictionary keeps the two in step. */
  lemma IndexedUnlink<K, V>(list: seq<Node<K, V>>, dictionary: map<K, Node<K, V>>, i: nat)
    requires Indexed(list, dictionary) && i < |list|
    ensures Indexed(list[..i] + list[i + 1..], dictionary - {list[i].entry.key})
    ensures EntriesOf(list[..i] + list[i + 1..]) == EntriesOf(list)[..i] + EntriesOf(list)[i + 1..]
  {
    var key := list[i].entry.key;
    var dictionary' := dictionary - {key};
    assert dictionary'.Keys == dictionary.Keys - {key};
    UnlinkEntries(list, i);
    UnlinkKeepsNodesIndexed(list, dictionary, i);
    UnlinkKeepsTargets(list, dictionary, i);
  }

  /** The records of the list after the unlink are the old records with position i cut out. */
  lemma UnlinkEntries<K, V>(list: seq<Node<K, V>>, i: nat)
    requires DistinctKeys(EntriesOf(list)) && i < |list|
    ensures EntriesOf(list[..i] + list[i + 1..]) == EntriesOf(list)[..i] + EntriesOf(list)[i + 1..]
    ensures DistinctKeys(EntriesOf(list[..i] + list[i + 1..]))
  {
    var s := EntriesOf(list);
    assert EntriesOf(list[..i] + list[i + 1..]) == s[..i] + s[i + 1..];
    DistinctCut(s, i);
  }

  /** After the unlink, every remaining node is still indexed under its key. */
  lemma UnlinkKeepsNodesIndexed<K, V>(list: seq<Node<K, V>>, dictionary: map<K, Node<K, V>>, i: nat)
    requires DistinctKeys(EntriesOf(list)) && NodesIndexed(list, dictionary) && i < |list|
    ensures NodesIndexed(list[..i] + list[i + 1..], dictionary - {list[i].entry.key})
  {
    var list', dictionary' := list[..i] + list[i + 1..], dictionary - {list[i].entry.key};
    var s := EntriesOf(list);
    forall j | 0 <= j < |list'|
      ensures list'[j].entry.key in dictionary' && dictionary'[list'[j].entry.key] == list'[j]
    {
      var j' := if j < i then j else j + 1;
      assert list'[j] == list[j'];
      assert s[j'].key != s[i].key;
    }
  }

  /** After the unlink, every remaining dictionary entry still points into the list. */
  lemma UnlinkKeepsTargets<K, V>(list: seq<Node<K, V>>, dictionary: map<K, Node<K, V>>, i: nat)
    requires TargetsListed(list, dictionary) && i < |list|
    requires list[i].entry.key in dictionary && dictionary[list[i].entry.key] == list[i]
    ensures TargetsListed(list[..i] + list[i + 1..], dictionary - {list[i].entry.key})
  {
    var list', dictionary' := list[..i] + list[i + 1..], dictionary - {list[i].entry.key};
    forall k | k in dictionary' ensures dictionary'[k] in list' {
      var j :| 0 <= j < |list| && dictionary[k] == list[j];
      assert j != i;
      if j < i {
        assert list'[j] == list[j];
      } else {
        assert list'[j - 1] == list[j];
      }
    }
  }

  /** Linking a node with a new key at the front and indexing it keeps the two in step. */
  lemma IndexedPrepend<K, V>(list: seq<Node<K, V>>, dictionary: map<K, Node<K, V>>, node: Node<K, V>)
    requires Indexed(list, dictionary) && node.entry.key !in dictionary
    ensures Indexed([node] + list, dictionary[node.entry.key := node])
    ensures EntriesOf([node] + list) == [node.entry] + EntriesOf(list)
  {
    var key := node.entry.key;
    var list' := [node] + list;
    var dictionary' := dictionary[key := node];
    assert EntriesOf(list') == [node.entry] + EntriesOf(list);
    forall i | 0 <= i < |list| ensures EntriesOf(list)[i].key != key {
      assert list[i].entry.key in dictionary;
    }
    forall i | 0 <= i < |list'|
      ensures list'[i].entry.key in dictionary' && dictionary'[list'[i].entry.key] == list'[i]
    {
      if i > 0 {
        assert list'[i] == list[i - 1];
        assert EntriesOf(list)[i - 1].key != key;
      }
    }
  }

  /** A key is in the dictionary exactly when some list node carries it. */
  lemma IndexedFinds<K, V>(list: seq<Node<K, V>>, dictionary: map<K, Node<K, V>>, key: K)
    requires Indexed(list, dictionary)
    ensures key in dictionary <==> HasKey(EntriesOf(list), key)
  {
    HasKeyIff(EntriesOf(list), key);
    if key in dictionary {
      var i :| 0 <= i < |list| && list[i] == dictionary[key];
      assert EntriesOf(list)[i].key == key;
    }
  }

  class LruCache<K(==), V> {
    const maxSize: int
    /** Stands for C#'s default(TValue), which TryGetValue hands back on a miss. */
    const defaultValue: V
    /** The LinkedList, head (most recently used) first. */
    var list: seq<Node<K, V>>
    /** The Dictionary from key to the list node holding it. */
    var dictionary: map<K, Node<K, V>>

    /** The cache's contents, most recently used first. */
    ghost function Contents(): seq<Entry<K, V>>
      reads this
    {
      EntriesOf(list)
    }

    /**
     * The object invariant: the dictionary and the list hold the same keys,
     * the list holds each key once, every dictionary entry points to the list
     * node carrying its key, and Count never exceeds a non-negative maxSize.
     */
    ghost predicate Valid()
      reads this
    {
      Indexed(list, dictionary) && (0 <= maxSize ==> |list| <= maxSize)
    }

    /** A negative maxSize gives a cache that never evicts, since Count never equals it. */
    constructor (maxSize: int, defaultValue: V)
      ensures Valid()
      ensures Contents() == []
      ensures this.maxSize == maxSize && this.defaultValue == defaultValue
    {
      this.maxSize := maxSize;
      this.defaultValue := defaultValue;
      list := [];
      dictionary := map[];
    }

    /** Count: the dictionary's size, which is also the number of list nodes. */
    function Count(): (n: nat)
      reads this
      requires Valid()
      ensures n == |Contents()|
    {
      |dictionary|
    }

    /** ContainsKey: a lookup in the dictionary, which finds exactly the keys the list holds. */
    function ContainsKey(key: K): (b: bool)
      reads this
      requires Valid()
      ensures b <==> HasKey(Contents(), key)
    {
      IndexedFinds(list, dictionary, key);
      key in dictionary
    }

    /** RemoveOldest: drop the tail's key from the dictionary and unlink the tail. */
    method RemoveOldest() returns (r: Result<()>)
      requires Valid()
      modifies this
      ensures Valid()
      ensures r == LruSpec.RemoveOldest(old(Contents())).result
      ensures Contents() == LruSpec.RemoveOldest(old(Contents())).entries
      ensures r.Ok? ==> (list == old(list[..|list| - 1])
                         && old(list[|list| - 1].entry.key) !in dictionary)
    {
      if list == [] {
        return Err(EmptyList);
      }
      var n := |list| - 1;
      IndexedUnlink(list, dictionary, n);
      assert list[..n] + list[n + 1..] == list[..n];
      assert Contents()[..n] + Contents()[n + 1..] == Contents()[..n];
      dictionary := dictionary - {list[n].entry.key};
      list := list[..n];
      r := Ok(());
    }

    /**
     * Add: evict the tail when Count == maxSize, then Dictionary.Add (which
     * throws on a key still present) and AddFirst; returns the value added.
     */
    method Add(key: K, value: V) returns (r: Result<V>)
      requires Valid()
      modifies this
      ensures Valid()
      ensures r == LruSpec.Add(old(Contents()), maxSize, key, value).result
      ensures Contents() == LruSpec.Add(old(Contents()), maxSize, key, value).entries
      ensures r.Ok? ==> (r.value == value && key in dictionary && list != []
                         && dictionary[key] == list[0] && list[0].entry == Entry(key, value))
    {
      ghost var s := Contents();
      if |dictionary| == maxSize {
        var evicted := RemoveOldest();
        if evicted.Err? {
          return Err(evicted.error);
        }
      }
      if key in dictionary {
        assert ContainsKey(key);
        return Err(DuplicateKey);
      }
      assert !ContainsKey(key);
      AddKeepsInvariant(s, maxSize, key, value);
      var node := new Node(Entry(key, value));
      IndexedPrepend(list, dictionary, node);
      dictionary := dictionary[key := node];
      list := [node] + list;
      r := Ok(value);
    }

    /** Remove: take the key's node out of the dictionary, unlink it, return its value. */
    method Remove(key: K) returns (r: Result<V>)
      requires Valid()
      modifies this
      ensures Valid()
      ensures r == LruSpec.Remove(old(Contents()), key).result
      ensures Contents() == LruSpec.Remove(old(Contents()), key).entries
    {
      if key !in dictionary {
        assert !ContainsKey(key);
        return Err(NullNode);
      }
      var node := dictionary[key];
      var i :| 0 <= i < |list| && list[i] == node;
      RemoveKeepsOrder(Contents(), i);
      IndexedUnlink(list, dictionary, i);
      dictionary := dictionary - {key};
      list := list[..i] + list[i + 1..];
      r := Ok(node.entry.value);
    }

    /**
     * TryGetValue: a miss answers false with the default value and changes
     * nothing; a hit removes the entry and adds it again, at the front.
     */
    method TryGetValue(key: K) returns (found: bool, value: V)
      requires Valid()
      modifies this
      ensures Valid()
      ensures found == HasKey(old(Contents()), key)
      ensures value == if found then Lookup(old(Contents()), key).value else defaultValue
      ensures Contents() == Touch(old(Contents()), key)
    {
      if key !in dictionary {
        assert !ContainsKey(key);
        return false, defaultValue;
      }
      ghost var s := Contents();
      assert ContainsKey(key);
      ReAddNeverEvicts(s, maxSize, key, Lookup(s, key).value);
      var removed := Remove(key);
      value := removed.value;
      var added := Add(key, value);
      found := true;
    }

    /** The indexer's getter: TryGetValue, or KeyNotFound on a miss. */
    method Get(key: K) returns (r: Result<V>)
      requires Valid()
      modifies this
      ensures Valid()
      ensures r == match Lookup(old(Contents()), key)
                   case None => Err(KeyNotFound)
                   case Some(v) => Ok(v)
      ensures Contents() == Touch(old(Contents()), key)
    {
      var found, value := TryGetValue(key);
      if !found {
        return Err(KeyNotFound);
      }
      r := Ok(value);
    }

    /** UpdateValue: KeyNotFound on an absent key, else remove and add with the new value. */
    method UpdateValue(key: K, value: V) returns (r: Result<()>)
      requires Valid()
      modifies this
      ensures Valid()
      ensures r == LruSpec.UpdateValue(old(Contents()), key, value).result
      ensures Contents() == LruSpec.UpdateValue(old(Contents()), key, value).entries
    {
      if key !in dictionary {
        assert !ContainsKey(key);
        return Err(KeyNotFound);
      }
      assert ContainsKey(key);
      ReAddNeverEvicts(Contents(), maxSize, key, value);
      var removed := Remove(key);
      var added := Add(key, value);
      r := Ok(());
    }

    /** The indexer's setter, which hands over to UpdateValue. */
    method Set(key: K, value: V) returns (r: Result<()>)
      requires Valid()
      modifies this
      ensures Valid()
      ensures r == LruSpec.UpdateValue(old(Contents()), key, value).result
      ensures Contents() == LruSpec.UpdateValue(old(Contents()), key, value).entries
    {
      r := UpdateValue(key, value);
    }
  }
}

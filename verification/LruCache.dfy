/** The least-recently-used cache: a list ordered from oldest to freshest and an
    index from keys to list nodes. */
module LruCache {
  import opened Types

  // ---- what the cache holds, as a list of entries -------------------------------

  datatype Entry<K, V> = Entry(key: K, value: V)

  function Remove<K(==), V>(s: seq<Entry<K, V>>, k: K): seq<Entry<K, V>> {
    if s == [] then [] else (if s[0].key == k then [] else [s[0]]) + Remove(s[1..], k)
  }

  function Find<K(==), V>(s: seq<Entry<K, V>>, k: K): Option<V> {
    if s == [] then None else if s[0].key == k then Some(s[0].value) else Find(s[1..], k)
  }

  function AfterLookup<K(==), V>(s: seq<Entry<K, V>>, k: K): seq<Entry<K, V>> {
    match Find(s, k) case None => s case Some(v) => Remove(s, k) + [Entry(k, v)]
  }

  /** The old entry of the key goes first; the oldest one is evicted only if the
      list is still full after that. */
  function AfterInsert<K(==), V>(s: seq<Entry<K, V>>, k: K, v: V, capacity: int): seq<Entry<K, V>>
    requires capacity >= 1
  {
    var rest := Remove(s, k);
    (if |rest| >= capacity then rest[1..] else rest) + [Entry(k, v)]
  }

  ghost predicate DistinctKeys<K, V>(s: seq<Entry<K, V>>) {
    forall i, j :: 0 <= i < j < |s| ==> s[i].key != s[j].key
  }

  ghost predicate HasKey<K, V>(s: seq<Entry<K, V>>, k: K) {
    exists e :: e in s && e.key == k
  }

  lemma {:induction false} RemoveMember<K, V>(s: seq<Entry<K, V>>, k: K, e: Entry<K, V>)
    ensures e in Remove(s, k) <==> e in s && e.key != k
  {
    if s != [] { RemoveMember(s[1..], k, e); }
  }

  lemma {:induction false} RemoveSize<K, V>(s: seq<Entry<K, V>>, k: K)
    requires DistinctKeys(s)
    ensures DistinctKeys(Remove(s, k))
    ensures if HasKey(s, k) then |Remove(s, k)| == |s| - 1 else Remove(s, k) == s
  {
    if s != [] {
      RemoveSize(s[1..], k);
      assert forall i :: 1 <= i < |s| ==> s[1..][i - 1] == s[i];
      forall e | e in Remove(s[1..], k) ensures e.key != s[0].key {
        RemoveMember(s[1..], k, e);
        var i :| 0 <= i < |s[1..]| && s[1..][i] == e;
        assert s[i + 1] == e;
      }
      assert HasKey(s, k) <==> s[0].key == k || HasKey(s[1..], k) by {
        assert s[0] in s;
        assert forall e :: e in s <==> e == s[0] || e in s[1..];
      }
    }
  }

  lemma {:induction false} FindMember<K, V>(s: seq<Entry<K, V>>, k: K)
    ensures Find(s, k).Some? ==> Entry(k, Find(s, k).value) in s
    ensures Find(s, k).Some? <==> HasKey(s, k)
  {
    if s != [] {
      FindMember(s[1..], k);
      assert forall e :: e in s <==> e == s[0] || e in s[1..];
    }
  }

  lemma FindUnique<K, V>(s: seq<Entry<K, V>>, e: Entry<K, V>)
    requires DistinctKeys(s) && e in s
    ensures Find(s, e.key) == Some(e.value)
  {
    FindMember(s, e.key);
    assert HasKey(s, e.key);
    var f := Entry(e.key, Find(s, e.key).value);
    var i :| 0 <= i < |s| && s[i] == e;
    var j :| 0 <= j < |s| && s[j] == f;
    assert i == j;
  }

  lemma AppendDistinct<K, V>(s: seq<Entry<K, V>>, e: Entry<K, V>)
    requires DistinctKeys(s) && !HasKey(s, e.key)
    ensures DistinctKeys(s + [e])
  {
  }

  lemma AfterLookupKeeps<K, V>(s: seq<Entry<K, V>>, k: K)
    requires DistinctKeys(s)
    ensures DistinctKeys(AfterLookup(s, k)) && |AfterLookup(s, k)| == |s|
  {
    FindMember(s, k);
    RemoveSize(s, k);
    if Find(s, k).Some? {
      forall e | e in Remove(s, k) ensures e.key != k { RemoveMember(s, k, e); }
      AppendDistinct(Remove(s, k), Entry(k, Find(s, k).value));
    }
  }

  lemma AfterInsertKeeps<K, V>(s: seq<Entry<K, V>>, k: K, v: V, capacity: int)
    requires DistinctKeys(s) && |s| <= capacity && capacity >= 1
    ensures DistinctKeys(AfterInsert(s, k, v, capacity)) && |AfterInsert(s, k, v, capacity)| <= capacity
  {
    RemoveSize(s, k);
    var rest := Remove(s, k);
    var kept := if |rest| >= capacity then rest[1..] else rest;
    forall e | e in kept ensures e.key != k {
      assert e in rest;
      RemoveMember(s, k, e);
    }
    AppendDistinct(kept, Entry(k, v));
  }

  // ---- the class -----------------------------------------------------------------

  /** A list node; a reference to it plays the part of a list iterator, which
      stays valid while the node moves within the list. */
  class Node<K, V> {
    const key: K
    const value: V
    constructor (key: K, value: V)
      ensures this.key == key && this.value == value
    {
      this.key := key;
      this.value := value;
    }
  }

  function Unlink<K, V>(s: seq<Node<K, V>>, n: Node<K, V>): seq<Node<K, V>> {
    if s == [] then [] else (if s[0] == n then [] else [s[0]]) + Unlink(s[1..], n)
  }

  function EntriesOf<K, V>(s: seq<Node<K, V>>): seq<Entry<K, V>> {
    seq(|s|, i requires 0 <= i < |s| => Entry(s[i].key, s[i].value))
  }

  lemma {:induction false} UnlinkMembers<K, V>(s: seq<Node<K, V>>, n: Node<K, V>)
    ensures forall m :: m in Unlink(s, n) <==> m in s && m != n
  {
    if s != [] { UnlinkMembers(s[1..], n); }
  }

  lemma EntriesFirst<K, V>(n: Node<K, V>, s: seq<Node<K, V>>)
    ensures EntriesOf([n] + s) == [Entry(n.key, n.value)] + EntriesOf(s)
  {
  }

  lemma {:induction false} UnlinkEntries<K, V>(s: seq<Node<K, V>>, n: Node<K, V>)
    requires forall m :: m in s && m.key == n.key ==> m == n
    ensures EntriesOf(Unlink(s, n)) == Remove(EntriesOf(s), n.key)
  {
    if s != [] {
      var rest := Unlink(s[1..], n);
      assert forall m :: m in s[1..] ==> m in s;
      UnlinkEntries(s[1..], n);
      assert s[0] in s && s == [s[0]] + s[1..];
      EntriesFirst(s[0], s[1..]);
      EntriesFirst(s[0], rest);
    }
  }

  class Cache<K(==), V> {
    const capacity: int
    var entries: seq<Node<K, V>>
    var index: map<K, Node<K, V>>

    ghost predicate Valid()
      reads this
    {
      && (entries == [] || |entries| <= capacity)
      && DistinctKeys(Contents())
      && (forall n :: n in entries ==> n.key in index && index[n.key] == n)
      && (forall k :: k in index ==> index[k] in entries && index[k].key == k)
    }

    ghost function Contents(): seq<Entry<K, V>>
      reads this
    {
      EntriesOf(entries)
    }

    constructor (capacity: int)
      ensures Valid() && Contents() == [] && this.capacity == capacity
    {
      this.capacity := capacity;
      entries := [];
      index := map[];
    }

    lemma Index(k: K)
      requires Valid()
      ensures Find(Contents(), k) == if k in index then Some(index[k].value) else None
    {
      if k in index {
        var i :| 0 <= i < |entries| && entries[i] == index[k];
        assert Contents()[i] == Entry(k, index[k].value);
        FindUnique(Contents(), Entry(k, index[k].value));
      } else {
        FindMember(Contents(), k);
        forall i | 0 <= i < |entries| ensures Contents()[i].key != k {
          assert entries[i] in entries;
        }
      }
    }

    /** A hit moves the entry to the fresh end. */
    method Lookup(k: K) returns (r: Option<V>)
      requires Valid()
      modifies this
      ensures Valid() && r == Find(old(Contents()), k)
      ensures Contents() == AfterLookup(old(Contents()), k)
    {
      Index(k);
      AfterLookupKeeps(Contents(), k);
      if k !in index {
        return None;
      }
      var n := index[k];
      UnlinkEntries(entries, n);
      UnlinkMembers(entries, n);
      entries := Unlink(entries, n) + [n];
      assert Contents() == Remove(old(Contents()), k) + [Entry(k, n.value)];
      return Some(n.value);
    }

    /** Drops the entry of a key, if there is one. */
    method Discard(k: K)
      requires Valid()
      modifies this
      ensures Valid() && Contents() == Remove(old(Contents()), k)
      ensures forall m :: m in entries ==> m.key != k
    {
      Index(k);
      FindMember(Contents(), k);
      RemoveSize(Contents(), k);
      if k in index {
        UnlinkEntries(entries, index[k]);
        UnlinkMembers(entries, index[k]);
        entries := Unlink(entries, index[k]);
        index := index - {k};
      }
      forall i | 0 <= i < |entries| ensures entries[i].key != k {
        RemoveMember(old(Contents()), k, Contents()[i]);
      }
    }

    method EvictOldest()
      requires Valid() && entries != []
      modifies this
      ensures Valid() && entries == old(entries)[1..] && Contents() == old(Contents())[1..]
    {
      forall m | m in entries[1..] ensures m.key != entries[0].key {
        var i :| 1 <= i < |entries| && entries[i] == m;
        assert Contents()[i].key != Contents()[0].key;
      }
      index := index - {entries[0].key};
      entries := entries[1..];
      assert Contents() == old(Contents())[1..];
    }

    method Insert(k: K, v: V)
      requires Valid() && capacity >= 1
      modifies this
      ensures Valid() && Contents() == AfterInsert(old(Contents()), k, v, capacity)
    {
      AfterInsertKeeps(Contents(), k, v, capacity);
      Discard(k);
      if |entries| >= capacity {
        EvictOldest();
      }
      var n := new Node(k, v);
      entries := entries + [n];
      index := index[k := n];
      assert Contents() == AfterInsert(old(Contents()), k, v, capacity);
    }
  }
}

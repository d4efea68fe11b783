/** Laws about whole runs of the cache, from empty, over every trace of calls. */
module LruLaws {
  import opened Types
  import opened LruCache

  datatype Op<K, V> = Lookup(key: K) | Insert(key: K, value: V)

  function Step<K(==), V>(s: seq<Entry<K, V>>, op: Op<K, V>, capacity: int): seq<Entry<K, V>>
    requires capacity >= 1
  {
    match op
    case Lookup(k) => AfterLookup(s, k)
    case Insert(k, v) => AfterInsert(s, k, v, capacity)
  }

  function Run<K(==), V>(ops: seq<Op<K, V>>, capacity: int): seq<Entry<K, V>>
    requires capacity >= 1
  {
    if ops == [] then [] else Step(Run(ops[..|ops| - 1], capacity), ops[|ops| - 1], capacity)
  }

  /** The representation keeps its bounds on every run. */
  lemma {:induction false} RunKeeps<K, V>(ops: seq<Op<K, V>>, capacity: int)
    requires capacity >= 1
    ensures DistinctKeys(Run(ops, capacity)) && |Run(ops, capacity)| <= capacity
  {
    if ops != [] {
      var s := Run(ops[..|ops| - 1], capacity);
      RunKeeps(ops[..|ops| - 1], capacity);
      match ops[|ops| - 1]
      case Lookup(k) => AfterLookupKeeps(s, k);
      case Insert(k, v) => AfterInsertKeeps(s, k, v, capacity);
    }
  }

  /** The class runs through exactly these states. */
  method Replay<K(==), V>(ops: seq<Op<K, V>>, capacity: int) returns (cache: Cache<K, V>)
    requires capacity >= 1
    ensures fresh(cache) && cache.Valid() && cache.capacity == capacity
    ensures cache.Contents() == Run(ops, capacity)
  {
    cache := new Cache(capacity);
    for i := 0 to |ops|
      invariant fresh(cache) && cache.Valid() && cache.capacity == capacity
      invariant cache.Contents() == Run(ops[..i], capacity)
    {
      assert ops[..i + 1][..i] == ops[..i];
      match ops[i]
      case Lookup(k) => var _ := cache.Lookup(k);
      case Insert(k, v) => cache.Insert(k, v);
    }
    assert ops[..|ops|] == ops;
  }

  // ---- inclusion ------------------------------------------------------------------

  /** `a` is `b` with some entries left out. */
  predicate Sub<T(==)>(a: seq<T>, b: seq<T>) {
    if a == [] then true
    else if b == [] then false
    else if a[0] == b[0] then Sub(a[1..], b[1..])
    else Sub(a, b[1..])
  }

  lemma {:induction false} SubDropsHead<T>(a: seq<T>, b: seq<T>)
    requires Sub(a, b) && a != []
    ensures Sub(a[1..], b) && Sub(a[1..], b[1..])
    decreases |b|, 0
  {
    if a[0] == b[0] {
      if |a| > 1 { SubDropsHead(a[1..], b[1..]); }
    } else {
      SubDropsHead(a, b[1..]);
      SubWidenHead(a[1..], b[0], b[1..]);
      assert [b[0]] + b[1..] == b;
    }
  }

  lemma {:induction false} SubWidenHead<T>(a: seq<T>, x: T, b: seq<T>)
    requires Sub(a, b)
    ensures Sub(a, [x] + b)
    decreases |b|, 1
  {
    assert ([x] + b)[1..] == b;
    if a != [] && a[0] == x {
      SubDropsHead(a, b);
    }
  }

  lemma {:induction false} SubAppend<T>(a: seq<T>, b: seq<T>, x: T)
    requires Sub(a, b)
    ensures Sub(a + [x], b + [x]) && Sub(a, b + [x])
    decreases |b|
  {
    if b == [] {
      assert a == [];
    } else {
      assert (b + [x])[1..] == b[1..] + [x];
      if a == [] {
        SubAppend(a, b[1..], x);
        if x == b[0] {
          assert (a + [x])[1..] == [];
        }
      } else {
        assert (a + [x])[1..] == a[1..] + [x];
        if a[0] == b[0] {
          SubAppend(a[1..], b[1..], x);
        } else {
          SubAppend(a, b[1..], x);
        }
      }
    }
  }

  lemma {:induction false} SubMember<T>(a: seq<T>, b: seq<T>, x: T)
    requires Sub(a, b) && x in a
    ensures x in b
    decreases |b|
  {
    if a[0] != b[0] {
      SubMember(a, b[1..], x);
    } else if x != a[0] {
      SubMember(a[1..], b[1..], x);
    }
  }

  lemma {:induction false} SubRemove<K, V>(a: seq<Entry<K, V>>, b: seq<Entry<K, V>>, k: K)
    requires Sub(a, b)
    ensures Sub(Remove(a, k), Remove(b, k))
    decreases |b|
  {
    if a != [] {
      if a[0] == b[0] {
        SubRemove(a[1..], b[1..], k);
        if a[0].key != k {
          assert ([a[0]] + Remove(a[1..], k))[1..] == Remove(a[1..], k);
          assert ([b[0]] + Remove(b[1..], k))[1..] == Remove(b[1..], k);
        } else {
          assert Remove(a, k) == Remove(a[1..], k) && Remove(b, k) == Remove(b[1..], k);
        }
      } else {
        SubRemove(a, b[1..], k);
        if b[0].key != k {
          SubWidenHead(Remove(a, k), b[0], Remove(b[1..], k));
        } else {
          assert Remove(b, k) == Remove(b[1..], k);
        }
      }
    }
  }

  /** A small and a large cache that saw the same calls: the small one is included
      in the large one, and if they differ at all the small one is full. */
  ghost predicate Included<K, V>(small: seq<Entry<K, V>>, large: seq<Entry<K, V>>, c: int, C: int) {
    && Sub(small, large) && DistinctKeys(small) && DistinctKeys(large)
    && |small| <= c && |large| <= C
    && (small == large || |small| == c)
  }

  lemma SubFind<K, V>(small: seq<Entry<K, V>>, large: seq<Entry<K, V>>, k: K)
    requires Sub(small, large) && DistinctKeys(large) && Find(small, k).Some?
    ensures Find(large, k) == Find(small, k)
  {
    FindMember(small, k);
    var e := Entry(k, Find(small, k).value);
    SubMember(small, large, e);
    FindUnique(large, e);
  }

  lemma LookupKeepsInclusion<K, V>(small: seq<Entry<K, V>>, large: seq<Entry<K, V>>, k: K)
    requires Sub(small, large) && DistinctKeys(small) && DistinctKeys(large)
    ensures Sub(AfterLookup(small, k), AfterLookup(large, k))
  {
    SubRemove(small, large, k);
    FindMember(small, k);
    RemoveSize(small, k);
    if Find(small, k).Some? {
      SubFind(small, large, k);
      SubAppend(Remove(small, k), Remove(large, k), Entry(k, Find(small, k).value));
    } else if Find(large, k).Some? {
      SubAppend(small, Remove(large, k), Entry(k, Find(large, k).value));
    }
  }

  lemma InsertKeepsInclusion<K, V>(small: seq<Entry<K, V>>, large: seq<Entry<K, V>>, k: K, v: V, c: int, C: int)
    requires 1 <= c <= C && Included(small, large, c, C)
    ensures Sub(AfterInsert(small, k, v, c), AfterInsert(large, k, v, C))
    ensures AfterInsert(small, k, v, c) == AfterInsert(large, k, v, C) || |AfterInsert(small, k, v, c)| == c
  {
    var a, b := Remove(small, k), Remove(large, k);
    SubRemove(small, large, k);
    RemoveSize(small, k);
    RemoveSize(large, k);
    if HasKey(small, k) {
      var e :| e in small && e.key == k;
      SubMember(small, large, e);
      SubAppend(a, b, Entry(k, v));
    } else if |a| >= c {
      SubDropsHead(a, b);
      SubAppend(a[1..], b, Entry(k, v));
      SubAppend(a[1..], b[1..], Entry(k, v));
    } else {
      assert small == large;
      SubAppend(a, b, Entry(k, v));
    }
  }

  lemma {:induction false} RunsIncluded<K, V>(ops: seq<Op<K, V>>, c: int, C: int)
    requires 1 <= c <= C
    ensures Included(Run(ops, c), Run(ops, C), c, C)
  {
    RunKeeps(ops, c);
    RunKeeps(ops, C);
    if ops != [] {
      var init := ops[..|ops| - 1];
      RunsIncluded(init, c, C);
      match ops[|ops| - 1]
      case Lookup(k) =>
        LookupKeepsInclusion(Run(init, c), Run(init, C), k);
        AfterLookupKeeps(Run(init, c), k);
      case Insert(k, v) =>
        InsertKeepsInclusion(Run(init, c), Run(init, C), k, v, c, C);
    }
  }

  /** On every trace a smaller cache holds a subsequence of what a larger one
      holds, so each of its hits is a hit of the larger one with the same value. */
  lemma InclusionLaw<K, V>(ops: seq<Op<K, V>>, c: int, C: int, k: K)
    requires 1 <= c <= C
    ensures Sub(Run(ops, c), Run(ops, C))
    ensures Find(Run(ops, c), k).Some? ==> Find(Run(ops, C), k) == Find(Run(ops, c), k)
  {
    RunsIncluded(ops, c, C);
    if Find(Run(ops, c), k).Some? { SubFind(Run(ops, c), Run(ops, C), k); }
  }

  // ---- recency ---------------------------------------------------------------------

  /** Keys in the order in which they were inserted or hit. */
  function Touched<K(==), V>(ops: seq<Op<K, V>>, capacity: int): seq<K>
    requires capacity >= 1
  {
    if ops == [] then []
    else
      var init := ops[..|ops| - 1];
      var op := ops[|ops| - 1];
      Touched(init, capacity) +
      (if op.Insert? || Find(Run(init, capacity), op.key).Some? then [op.key] else [])
  }

  function Without<K(==)>(ks: seq<K>, k: K): seq<K> {
    if ks == [] then [] else (if ks[0] == k then [] else [ks[0]]) + Without(ks[1..], k)
  }

  /** Distinct keys, ordered by their last occurrence. */
  function LastSeen<K(==)>(ks: seq<K>): seq<K> {
    if ks == [] then [] else Without(LastSeen(ks[..|ks| - 1]), ks[|ks| - 1]) + [ks[|ks| - 1]]
  }

  function LastFew<T>(s: seq<T>, n: nat): seq<T> {
    if |s| <= n then s else s[|s| - n..]
  }

  /** Value of the latest insert of `k`. */
  function Latest<K(==), V>(ops: seq<Op<K, V>>, k: K): Option<V> {
    if ops == [] then None
    else
      var op := ops[|ops| - 1];
      if op.Insert? && op.key == k then Some(op.value) else Latest(ops[..|ops| - 1], k)
  }

  function KeysOf<K, V>(s: seq<Entry<K, V>>): seq<K> {
    seq(|s|, i requires 0 <= i < |s| => s[i].key)
  }

  ghost predicate NoDuplicates<K>(ks: seq<K>) {
    forall i, j :: 0 <= i < j < |ks| ==> ks[i] != ks[j]
  }

  lemma Regroup<K>(a: seq<K>, b: seq<K>, c: seq<K>)
    ensures a + (b + c) == a + b + c
  {
  }

  lemma WithoutFirst<K>(x: K, s: seq<K>, k: K)
    ensures Without([x] + s, k) == (if x == k then [] else [x]) + Without(s, k)
  {
  }

  lemma {:induction false} WithoutAppend<K>(a: seq<K>, b: seq<K>, k: K)
    ensures Without(a + b, k) == Without(a, k) + Without(b, k)
  {
    if a == [] {
      assert a + b == b;
    } else {
      WithoutAppend(a[1..], b, k);
      assert a + b == [a[0]] + (a[1..] + b);
      WithoutFirst(a[0], a[1..] + b, k);
      Regroup(if a[0] == k then [] else [a[0]], Without(a[1..], k), Without(b, k));
    }
  }

  lemma {:induction false} WithoutFacts<K>(a: seq<K>, k: K)
    requires NoDuplicates(a)
    ensures NoDuplicates(Without(a, k)) && forall x :: x in Without(a, k) <==> x in a && x != k
    ensures |Without(a, k)| == if k in a then |a| - 1 else |a|
  {
    if a != [] {
      WithoutFacts(a[1..], k);
      assert a[0] !in a[1..];
    }
  }

  lemma {:induction false} LastSeenDistinct<K>(ks: seq<K>)
    ensures NoDuplicates(LastSeen(ks))
  {
    if ks != [] {
      LastSeenDistinct(ks[..|ks| - 1]);
      WithoutFacts(LastSeen(ks[..|ks| - 1]), ks[|ks| - 1]);
    }
  }

  lemma {:induction false} RemoveKeys<K, V>(s: seq<Entry<K, V>>, k: K)
    ensures KeysOf(Remove(s, k)) == Without(KeysOf(s), k)
  {
    if s != [] {
      RemoveKeys(s[1..], k);
      assert KeysOf(s)[1..] == KeysOf(s[1..]);
    }
  }

  function Pushed<K>(rest: seq<K>, k: K, n: nat): seq<K>
    requires n >= 1
  {
    (if |rest| >= n then rest[1..] else rest) + [k]
  }

  lemma PushedIsLast<K>(older: seq<K>, rest: seq<K>, k: K, n: nat)
    requires n >= 1 && |rest| <= n && (older == [] || |rest| >= n - 1)
    ensures LastFew(older + rest + [k], n) == Pushed(rest, k, n)
  {
  }

  lemma WithoutSize<K>(a: seq<K>, k: K)
    requires NoDuplicates(a)
    ensures |a| - 1 <= |Without(a, k)| <= |a|
  {
    WithoutFacts(a, k);
  }

  /** Touching a key that is among the last few keeps their number; touching
      another one pushes the oldest of a full window out. */
  lemma WindowStep<K>(all: seq<K>, k: K, n: nat)
    requires n >= 1 && NoDuplicates(all)
    ensures LastFew(Without(all, k) + [k], n) == Pushed(Without(LastFew(all, n), k), k, n)
  {
    var window := LastFew(all, n);
    var gone := all[..|all| - |window|];
    assert all == gone + window;
    WithoutAppend(gone, window, k);
    WithoutSize(window, k);
    if gone == [] {
      assert Without(gone, k) == [];
    }
    PushedIsLast(Without(gone, k), Without(window, k), k, n);
  }

  lemma LookupKeys<K, V>(s: seq<Entry<K, V>>, k: K)
    requires DistinctKeys(s)
    ensures KeysOf(AfterLookup(s, k)) == if Find(s, k).Some? then Without(KeysOf(s), k) + [k] else KeysOf(s)
    ensures Find(s, k).Some? ==> |Without(KeysOf(s), k)| == |s| - 1
  {
    RemoveKeys(s, k);
    FindMember(s, k);
    RemoveSize(s, k);
    if Find(s, k).Some? {
      assert |KeysOf(Remove(s, k))| == |s| - 1;
      assert KeysOf(AfterLookup(s, k)) == KeysOf(Remove(s, k)) + [k];
    }
  }

  lemma InsertKeys<K, V>(s: seq<Entry<K, V>>, k: K, v: V, capacity: int)
    requires capacity >= 1
    ensures KeysOf(AfterInsert(s, k, v, capacity)) == Pushed(Without(KeysOf(s), k), k, capacity)
  {
    RemoveKeys(s, k);
    var rest := Remove(s, k);
    assert |KeysOf(rest)| == |rest|;
    assert |rest| >= capacity ==> KeysOf(rest[1..]) == KeysOf(rest)[1..];
  }

  lemma {:induction false} RunKeysLaw<K, V>(ops: seq<Op<K, V>>, capacity: int)
    requires capacity >= 1
    ensures KeysOf(Run(ops, capacity)) == LastFew(LastSeen(Touched(ops, capacity)), capacity)
  {
    if ops != [] {
      var init, op := ops[..|ops| - 1], ops[|ops| - 1];
      var s, touched := Run(init, capacity), Touched(init, capacity);
      RunKeysLaw(init, capacity);
      RunKeeps(init, capacity);
      if op.Insert? || Find(s, op.key).Some? {
        LastSeenDistinct(touched);
        WindowStep(LastSeen(touched), op.key, capacity);
        assert (touched + [op.key])[..|touched|] == touched;
        assert LastSeen(Touched(ops, capacity)) == Without(LastSeen(touched), op.key) + [op.key];
      }
      match op
      case Lookup(k) =>
        LookupKeys(s, k);
        assert touched + [] == touched;
      case Insert(k, v) =>
        InsertKeys(s, k, v, capacity);
    }
  }

  lemma {:induction false} RunValuesLaw<K, V>(ops: seq<Op<K, V>>, capacity: int)
    requires capacity >= 1
    ensures forall e :: e in Run(ops, capacity) ==> Latest(ops, e.key) == Some(e.value)
  {
    if ops != [] {
      var init, op := ops[..|ops| - 1], ops[|ops| - 1];
      var s := Run(init, capacity);
      RunValuesLaw(init, capacity);
      FindMember(s, op.key);
      forall e | e in Run(ops, capacity) ensures Latest(ops, e.key) == Some(e.value) {
        RemoveMember(s, op.key, e);
      }
    }
  }

  /** After any trace the cache holds exactly the last `capacity` distinct keys
      that were inserted or hit, oldest first, each with the value of its latest
      insert. */
  lemma RecencyLaw<K, V>(ops: seq<Op<K, V>>, capacity: int)
    requires capacity >= 1
    ensures var s := Run(ops, capacity);
            var ks := LastFew(LastSeen(Touched(ops, capacity)), capacity);
            |s| == |ks| && forall i :: 0 <= i < |ks| ==> s[i].key == ks[i] && Latest(ops, ks[i]) == Some(s[i].value)
  {
    RunKeysLaw(ops, capacity);
    RunValuesLaw(ops, capacity);
    var s := Run(ops, capacity);
    forall i | 0 <= i < |s| ensures s[i].key == KeysOf(s)[i] && Latest(ops, s[i].key) == Some(s[i].value) {
      assert s[i] in s;
    }
  }
}

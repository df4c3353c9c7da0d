/**
 * The least-recently-used cache.  The cache is the list of its entries in insertion order, oldest use
 * first, which is how the source uses a JavaScript `Map`.
 */
module LRUCache {
  import opened Wrappers

  datatype Pair<K, V> = Pair(key: K, value: V)
  type Recency<K, V> = seq<Pair<K, V>>

  predicate Has<K(==), V>(c: Recency<K, V>, key: K) {
    exists i | 0 <= i < |c| :: c[i].key == key
  }

  ghost predicate Distinct<K, V>(c: Recency<K, V>) {
    forall i, j | 0 <= i < j < |c| :: c[i].key != c[j].key
  }

  function Find<K(==), V>(c: Recency<K, V>, key: K): Option<V> {
    if c == [] then None else if c[0].key == key then Some(c[0].value) else Find(c[1..], key)
  }

  function Remove<K(==), V>(c: Recency<K, V>, key: K): Recency<K, V> {
    if c == [] then [] else if c[0].key == key then c[1..] else [c[0]] + Remove(c[1..], key)
  }

  // ---------------------------------------------------------------- the operations

  function Get<K(==), V>(c: Recency<K, V>, key: K): Recency<K, V> {
    var v := Find(c, key);
    if v.None? then c else Remove(c, key) + [Pair(key, v.value)]
  }

  function Set<K(==), V>(c: Recency<K, V>, capacity: nat, key: K, value: V): Recency<K, V>
    requires capacity > 0
  {
    var room := if Find(c, key).Some? then Remove(c, key) else if |c| >= capacity then c[1..] else c;
    room + [Pair(key, value)]
  }

  datatype Op<K, V> = DoGet(key: K) | DoSet(key: K, value: V) | DoDelete(key: K)

  function Apply<K(==), V>(c: Recency<K, V>, capacity: nat, op: Op<K, V>): Recency<K, V>
    requires capacity > 0
  {
    match op
    case DoGet(key) => Get(c, key)
    case DoSet(key, value) => Set(c, capacity, key, value)
    case DoDelete(key) => Remove(c, key)
  }

  function Run<K(==), V>(c: Recency<K, V>, capacity: nat, ops: seq<Op<K, V>>): Recency<K, V>
    requires capacity > 0
    decreases |ops|
  {
    if ops == [] then c else Run(Apply(c, capacity, ops[0]), capacity, ops[1..])
  }

  function Hits<K(==), V>(c: Recency<K, V>, capacity: nat, ops: seq<Op<K, V>>): nat
    requires capacity > 0
    decreases |ops|
  {
    if ops == [] then 0
    else (if ops[0].DoGet? && Find(c, ops[0].key).Some? then 1 else 0)
         + Hits(Apply(c, capacity, ops[0]), capacity, ops[1..])
  }

  // ---------------------------------------------------------------- runs

  /** A run ends with its last operation. */
  lemma {:induction false} RunSnoc<K, V>(c: Recency<K, V>, capacity: nat, ops: seq<Op<K, V>>, op: Op<K, V>)
    requires capacity > 0
    ensures Run(c, capacity, ops + [op]) == Apply(Run(c, capacity, ops), capacity, op)
    decreases |ops|
  {
    if ops == [] {
      assert [op][1..] == [];
    } else {
      assert (ops + [op])[1..] == ops[1..] + [op];
      RunSnoc(Apply(c, capacity, ops[0]), capacity, ops[1..], op);
    }
  }

  /** The number of hits grows by one with a get whose key is there, and with nothing else. */
  lemma {:induction false} HitsSnoc<K, V>(c: Recency<K, V>, capacity: nat, ops: seq<Op<K, V>>, op: Op<K, V>)
    requires capacity > 0
    ensures Hits(c, capacity, ops + [op])
         == Hits(c, capacity, ops) + if op.DoGet? && Has(Run(c, capacity, ops), op.key) then 1 else 0
    decreases |ops|
  {
    if ops == [] {
      assert [op][1..] == [];
      if op.DoGet? { FindKey(c, op.key); }
    } else {
      assert (ops + [op])[1..] == ops[1..] + [op];
      HitsSnoc(Apply(c, capacity, ops[0]), capacity, ops[1..], op);
    }
  }

  // ---------------------------------------------------------------- inclusion

  // ---------------------------------------------------------------- recency

  /** The entry of a key stands at one place, where it is found, and from where it is removed. */
  lemma {:induction false} KeyPlace<K, V>(c: Recency<K, V>, key: K) returns (i: nat)
    requires Has(c, key)
    ensures i < |c| && c[i].key == key && Find(c, key) == Some(c[i].value) && Remove(c, key) == c[..i] + c[i + 1..]
    decreases |c|
  {
    if c[0].key == key {
      i := 0;
    } else {
      assert Has(c[1..], key) by {
        var k :| 0 <= k < |c| && c[k].key == key;
        assert c[1..][k - 1].key == key;
      }
      var j := KeyPlace(c[1..], key);
      i := j + 1;
      assert c[..i] + c[i + 1..] == [c[0]] + (c[1..][..j] + c[1..][j + 1..]);
    }
  }

  /** A hit moves the entry to the recent end and keeps the order of the others; a miss changes nothing. */
  lemma GetMeans<K, V>(c: Recency<K, V>, key: K)
    ensures Find(c, key).Some? <==> Has(c, key)
    ensures Has(c, key) ==> exists i: nat :: i < |c| && c[i].key == key && Find(c, key) == Some(c[i].value)
                                             && Get(c, key) == c[..i] + c[i + 1..] + [c[i]]
    ensures !Has(c, key) ==> Get(c, key) == c
  {
    FindKey(c, key);
    if Has(c, key) {
      var i := KeyPlace(c, key);
      assert c[i] == Pair(key, Find(c, key).value);
    }
  }

  /**
   * Setting puts the pair at the recent end.  A key that is there leaves its old place; otherwise a full
   * cache loses its first entry, the one whose last use is the longest ago.
   */
  lemma SetMeans<K, V>(c: Recency<K, V>, capacity: nat, key: K, value: V)
    requires capacity > 0
    ensures Has(c, key) ==> exists i: nat :: i < |c| && c[i].key == key
                                             && Set(c, capacity, key, value) == c[..i] + c[i + 1..] + [Pair(key, value)]
    ensures !Has(c, key) && |c| < capacity ==> Set(c, capacity, key, value) == c + [Pair(key, value)]
    ensures !Has(c, key) && |c| >= capacity ==> Set(c, capacity, key, value) == c[1..] + [Pair(key, value)]
  {
    FindKey(c, key);
    if Has(c, key) {
      var i := KeyPlace(c, key);
    }
  }

  /** `a` is `b` with some entries left out: same order, same values. */
  predicate Sub<K(==), V(==)>(a: Recency<K, V>, b: Recency<K, V>)
    decreases |b|
  {
    if a == [] then true
    else if b == [] then false
    else if a[0] == b[0] then Sub(a[1..], b[1..])
    else Sub(a, b[1..])
  }

  lemma {:induction false} SubLength<K, V>(a: Recency<K, V>, b: Recency<K, V>)
    requires Sub(a, b)
    ensures |a| <= |b|
    decreases |b|
  {
    if a != [] {
      SubLength(if a[0] == b[0] then a[1..] else a, b[1..]);
    }
  }

  lemma {:induction false} SubTail<K, V>(a: Recency<K, V>, b: Recency<K, V>)
    requires Sub(a, b) && a != []
    ensures b != [] && Sub(a[1..], b[1..])
    decreases |b|
  {
    if a[0] != b[0] {
      SubTail(a, b[1..]);
      SubSkip(a[1..], b[1..]);
    }
  }

  /** Leaving out one more entry on the left of `b` is enough. */
  lemma {:induction false} SubSkip<K, V>(a: Recency<K, V>, b: Recency<K, V>)
    requires b != [] && Sub(a, b[1..])
    ensures Sub(a, b)
    decreases |b|
  {
    if a != [] && a[0] == b[0] {
      SubTail(a, b[1..]);
      SubSkip(a[1..], b[1..]);
    }
  }

  lemma {:induction false} SubSnoc<K, V>(a: Recency<K, V>, b: Recency<K, V>, p: Pair<K, V>)
    requires Sub(a, b)
    ensures Sub(a + [p], b + [p])
    decreases |b|
  {
    if b == [] {
    } else if a != [] && a[0] == b[0] {
      SubSnoc(a[1..], b[1..], p);
      assert (a + [p])[1..] == a[1..] + [p] && (b + [p])[1..] == b[1..] + [p];
    } else {
      SubSnoc(a, b[1..], p);
      assert (b + [p])[1..] == b[1..] + [p];
      SubSkip(a + [p], b + [p]);
    }
  }

  lemma {:induction false} FindKey<K, V>(c: Recency<K, V>, key: K)
    ensures Find(c, key).Some? <==> Has(c, key)
    ensures Find(c, key).None? ==> Remove(c, key) == c
    decreases |c|
  {
    if c != [] && c[0].key != key {
      FindKey(c[1..], key);
      assert c == [c[0]] + c[1..];
    }
  }

  lemma {:induction false} FindInSub<K, V>(a: Recency<K, V>, b: Recency<K, V>, key: K)
    requires Sub(a, b) && Distinct(b) && Find(a, key).Some?
    ensures Find(b, key) == Find(a, key)
    decreases |b|
  {
    if a[0] == b[0] {
      if a[0].key != key { FindInSub(a[1..], b[1..], key); }
    } else {
      FindInSub(a, b[1..], key);
      FindKey(b[1..], key);
    }
  }

  lemma {:induction false} RemoveDistinct<K, V>(c: Recency<K, V>, key: K)
    requires Distinct(c)
    ensures Distinct(Remove(c, key)) && !Has(Remove(c, key), key)
    ensures forall p | p in Remove(c, key) :: p in c
    ensures |Remove(c, key)| == if Has(c, key) then |c| - 1 else |c|
    decreases |c|
  {
    if c != [] {
      assert c == [c[0]] + c[1..];
      if c[0].key != key {
        RemoveDistinct(c[1..], key);
        var r := Remove(c[1..], key);
        forall j | 0 <= j < |r| ensures r[j].key != c[0].key { assert r[j] in r; }
        FindKey(c, key);
        FindKey(c[1..], key);
      }
    }
  }

  lemma {:induction false} SubRemove<K, V>(a: Recency<K, V>, b: Recency<K, V>, key: K)
    requires Sub(a, b) && Distinct(b)
    ensures Sub(Remove(a, key), Remove(b, key))
    decreases |b|
  {
    if a != [] {
      if a[0] == b[0] {
        if a[0].key != key {
          SubRemove(a[1..], b[1..], key);
          assert Remove(a, key)[1..] == Remove(a[1..], key) && Remove(b, key)[1..] == Remove(b[1..], key);
        }
      } else {
        SubRemove(a, b[1..], key);
        if b[0].key == key {
          if Find(a, key).Some? {
            FindInSub(a, b[1..], key);
            FindKey(b[1..], key);
          }
          FindKey(a, key);
        } else {
          assert Remove(b, key)[1..] == Remove(b[1..], key);
          SubSkip(Remove(a, key), Remove(b, key));
        }
      }
    }
  }

  lemma SubHas<K, V>(a: Recency<K, V>, b: Recency<K, V>, key: K)
    requires Sub(a, b) && Distinct(b)
    ensures Has(a, key) ==> Has(b, key)
  {
    FindKey(a, key);
    FindKey(b, key);
    if Has(a, key) { FindInSub(a, b, key); }
  }

  /**
   * The small cache is the large one with entries left out, and the large one has at most the extra
   * capacity more entries, so that the large cache is never full before the small one.
   */
  ghost predicate Included<K, V>(a: Recency<K, V>, ca: nat, b: Recency<K, V>, cb: nat) {
    && 0 < ca <= cb
    && Distinct(a) && Distinct(b) && Sub(a, b)
    && |a| <= ca && |b| <= cb && |b| - |a| <= cb - ca
  }

  lemma SnocDistinct<K, V>(c: Recency<K, V>, p: Pair<K, V>)
    requires Distinct(c) && !Has(c, p.key)
    ensures Distinct(c + [p])
  {
  }

  lemma {:induction false} SubDistinct<K, V>(a: Recency<K, V>, b: Recency<K, V>)
    requires Sub(a, b) && Distinct(b)
    ensures Distinct(a)
    decreases |b|
  {
    if a != [] {
      if a[0] == b[0] {
        SubDistinct(a[1..], b[1..]);
        forall j | 0 <= j < |a[1..]| ensures a[1..][j].key != a[0].key {
          assert Has(a[1..], a[1..][j].key);
          SubHas(a[1..], b[1..], a[1..][j].key);
        }
        assert a == [a[0]] + a[1..];
      } else {
        SubDistinct(a, b[1..]);
      }
    }
  }

  lemma GetIncluded<K, V>(a: Recency<K, V>, ca: nat, b: Recency<K, V>, cb: nat, key: K)
    requires Included(a, ca, b, cb)
    ensures Included(Get(a, key), ca, Get(b, key), cb)
  {
    FindKey(a, key);
    FindKey(b, key);
    SubHas(a, b, key);
    RemoveDistinct(a, key);
    RemoveDistinct(b, key);
    if Find(b, key).Some? {
      var p := Pair(key, Find(b, key).value);
      SubRemove(a, b, key);
      SubSnoc(Remove(a, key), Remove(b, key), p);
      SnocDistinct(Remove(b, key), p);
      if Find(a, key).Some? {
        FindInSub(a, b, key);
        SnocDistinct(Remove(a, key), p);
      } else {
        SubAppend(a, Remove(b, key), p);
      }
    }
  }

  lemma {:induction false} SubAppend<K, V>(a: Recency<K, V>, b: Recency<K, V>, p: Pair<K, V>)
    requires Sub(a, b)
    ensures Sub(a, b + [p])
    decreases |b|
  {
    if a != [] {
      assert (b + [p])[1..] == b[1..] + [p];
      SubAppend(if a[0] == b[0] then a[1..] else a, b[1..], p);
    }
  }

  lemma SetIncluded<K, V>(a: Recency<K, V>, ca: nat, b: Recency<K, V>, cb: nat, key: K, value: V)
    requires Included(a, ca, b, cb)
    ensures Included(Set(a, ca, key, value), ca, Set(b, cb, key, value), cb)
  {
    var p := Pair(key, value);
    FindKey(a, key);
    FindKey(b, key);
    SubHas(a, b, key);
    RemoveDistinct(a, key);
    RemoveDistinct(b, key);
    SubRemove(a, b, key);
    SubLength(a, b);
    var ra := if Has(a, key) then Remove(a, key) else if |a| >= ca then a[1..] else a;
    var rb := if Has(b, key) then Remove(b, key) else if |b| >= cb then b[1..] else b;
    if Has(b, key) {
      if !Has(a, key) && |a| >= ca { DropFirst(a, rb); }
    } else if |a| >= ca {
      if |b| >= cb { SubTail(a, b); } else { DropFirst(a, b); }
    }
    assert Sub(ra, rb);
    SubSnoc(ra, rb, p);
    SnocDistinct(rb, p);
    SubDistinct(ra + [p], rb + [p]);
  }

  lemma DropFirst<K, V>(a: Recency<K, V>, b: Recency<K, V>)
    requires Sub(a, b) && a != []
    ensures Sub(a[1..], b)
  {
    SubTail(a, b);
    SubSkip(a[1..], b);
  }

  lemma DeleteIncluded<K, V>(a: Recency<K, V>, ca: nat, b: Recency<K, V>, cb: nat, key: K)
    requires Included(a, ca, b, cb)
    ensures Included(Remove(a, key), ca, Remove(b, key), cb)
  {
    SubRemove(a, b, key);
    SubHas(a, b, key);
    RemoveDistinct(a, key);
    RemoveDistinct(b, key);
  }

  lemma StepIncluded<K, V>(a: Recency<K, V>, ca: nat, b: Recency<K, V>, cb: nat, op: Op<K, V>)
    requires Included(a, ca, b, cb)
    ensures Included(Apply(a, ca, op), ca, Apply(b, cb, op), cb)
  {
    match op
    case DoGet(key) => GetIncluded(a, ca, b, cb, key);
    case DoSet(key, value) => SetIncluded(a, ca, b, cb, key, value);
    case DoDelete(key) => DeleteIncluded(a, ca, b, cb, key);
  }

  /**
   * Inclusion: over any run the smaller cache holds a subsequence of the larger one's recency list, and
   * the larger cache has at least as many hits; neither ever exceeds its capacity.
   */
  lemma {:induction false} LargerCacheIsBetter<K, V>(a: Recency<K, V>, ca: nat, b: Recency<K, V>, cb: nat,
                                                     ops: seq<Op<K, V>>)
    requires Included(a, ca, b, cb)
    ensures Included(Run(a, ca, ops), ca, Run(b, cb, ops), cb)
    ensures Hits(a, ca, ops) <= Hits(b, cb, ops)
    decreases |ops|
  {
    if ops != [] {
      StepIncluded(a, ca, b, cb, ops[0]);
      if ops[0].DoGet? && Find(a, ops[0].key).Some? { FindInSub(a, b, ops[0].key); }
      LargerCacheIsBetter(Apply(a, ca, ops[0]), ca, Apply(b, cb, ops[0]), cb, ops[1..]);
    }
  }

  // ---------------------------------------------------------------- the class

  class LRUCache<K(==), V(==)> {
    const capacity: nat
    var cache: Recency<K, V>
    var hits: nat
    var misses: nat

    ghost predicate Valid()
      reads this
    {
      Included(cache, capacity, cache, capacity)
    }

    constructor (capacity: nat)
      requires capacity > 0
      ensures Valid() && this.capacity == capacity && cache == [] && hits == misses == 0
    {
      this.capacity := capacity;
      cache, hits, misses := [], 0, 0;
    }

    method Lookup(key: K) returns (v: Option<V>)
      requires Valid()
      modifies this
      ensures Valid()
      ensures v == Find(old(cache), key) && cache == Get(old(cache), key)
      ensures if v.Some? then hits == old(hits) + 1 && misses == old(misses)
              else misses == old(misses) + 1 && hits == old(hits)
    {
      GetIncluded(cache, capacity, cache, capacity, key);
      v := Find(cache, key);
      if v.None? {
        misses := misses + 1;
        return;
      }
      hits := hits + 1;
      cache := Remove(cache, key);
      cache := cache + [Pair(key, v.value)];
    }

    method Put(key: K, value: V)
      requires Valid()
      modifies this`cache
      ensures Valid() && cache == Set(old(cache), capacity, key, value)
    {
      SetIncluded(cache, capacity, cache, capacity, key, value);
      if Find(cache, key).Some? {
        cache := Remove(cache, key);
      } else if |cache| >= capacity {
        cache := cache[1..];
      }
      cache := cache + [Pair(key, value)];
    }

    method Delete(key: K) returns (removed: bool)
      requires Valid()
      modifies this`cache
      ensures Valid() && cache == Remove(old(cache), key) && (removed <==> Has(old(cache), key))
    {
      DeleteIncluded(cache, capacity, cache, capacity, key);
      FindKey(cache, key);
      removed := Find(cache, key).Some?;
      cache := Remove(cache, key);
    }
  }

  /** Asking for a capacity that is not positive throws. */
  method Create<K(==), V(==)>(capacity: int) returns (r: Option<LRUCache<K, V>>)
    ensures r.None? <==> capacity <= 0
    ensures r.Some? ==> fresh(r.value) && r.value.Valid() && r.value.capacity == capacity && r.value.cache == []
  {
    if capacity <= 0 {
      return None;
    }
    var c := new LRUCache<K, V>(capacity);
    r := Some(c);
  }
}

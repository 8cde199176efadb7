/** The hash table with separate chaining built on the bucket store. The ghost
    map `Contents` is the mapping the table stands for; `Represents` ties it to
    the chains. Keys are assumed to have non-negative hash codes. */
module Table {
  import opened Wrappers
  import opened Pairs
  import opened Chains
  import opened BucketSpec
  import opened ListsOfPairs

  /** `MIN_SLOTS`. */
  const MinSlots := 2

  /** `containsKey` and `getValue` on the chain of `k` answer for the map. */
  lemma RepresentsLookup<K, V>(b: Buckets<K, V>, m: map<K, V>, hash: K -> int, k: K)
    requires Represents(b, m, hash) && hash(k) >= 0
    ensures HasKey(b[IndexFor(hash(k), |b|)], k) <==> k in m
    ensures Lookup(b[IndexFor(hash(k), |b|)], k) == if k in m then Some(m[k]) else None
  {
    var i := IndexFor(hash(k), |b|);
    if HasKey(b[i], k) {
      var j :| 0 <= j < |b[i]| && b[i][j].key == k;
      assert k in m;
    }
    if k in m {
      assert Keyed(m, k);
      LookupDistinct(b[i], k, m[k]);
    }
  }

  /** `addPair` of an absent key adds that entry to the map. */
  lemma RepresentsInsert<K, V>(b: Buckets<K, V>, m: map<K, V>, hash: K -> int, k: K, v: V)
    requires Represents(b, m, hash) && hash(k) >= 0 && k !in m
    ensures Represents(Insert(b, KeyValuePair(k, v), hash), m[k := v], hash)
  {
    var i := IndexFor(hash(k), |b|);
    var p := KeyValuePair(k, v);
    var b': Buckets<K, V> := Insert(b, p, hash);
    var m' := m[k := v];
    assert b' == b[i := [p] + b[i]];
    forall t | 0 <= t < |b[i]|
      ensures b[i][t].key != k
    {
      assert b[i][t].key in m;
    }
    forall i0, j | 0 <= i0 < |b'| && 0 <= j < |b'[i0]|
      ensures hash(b'[i0][j].key) >= 0 && IndexFor(hash(b'[i0][j].key), |b'|) == i0
      ensures b'[i0][j].key in m' && m'[b'[i0][j].key] == b'[i0][j].value
    {
      if i0 == i && j > 0 {
        assert b'[i0][j] == b[i][j - 1];
      }
    }
    var c := [p] + b[i];
    forall x, y | 0 <= x < y < |c|
      ensures c[x].key != c[y].key
    {
      if x > 0 {
        assert c[x] == b[i][x - 1] && c[y] == b[i][y - 1];
      } else {
        assert c[y] == b[i][y - 1];
      }
    }
    assert AllDistinct(b');
    forall k0 | k0 in m'
      ensures hash(k0) >= 0 && KeyValuePair(k0, m'[k0]) in b'[IndexFor(hash(k0), |b'|)]
    {
      if k0 != k {
        assert Keyed(m, k0);
        assert KeyValuePair(k0, m[k0]) in b[IndexFor(hash(k0), |b|)];
      }
    }
  }

  /** `replaceValue` of a present key changes that entry of the map. */
  lemma RepresentsReplace<K, V>(b: Buckets<K, V>, m: map<K, V>, hash: K -> int, k: K, v: V)
    requires Represents(b, m, hash) && hash(k) >= 0 && k in m
    ensures Represents(b[IndexFor(hash(k), |b|) := ReplaceFirst(b[IndexFor(hash(k), |b|)], k, v)], m[k := v], hash)
  {
    var i := IndexFor(hash(k), |b|);
    var c := ReplaceFirst(b[i], k, v);
    var b': Buckets<K, V> := b[i := c];
    var m' := m[k := v];
    ReplaceFirstDistinct(b[i], k, v);
    RepresentsLookup(b, m, hash, k);
    forall i0, j | 0 <= i0 < |b'| && 0 <= j < |b'[i0]|
      ensures hash(b'[i0][j].key) >= 0 && IndexFor(hash(b'[i0][j].key), |b'|) == i0
      ensures b'[i0][j].key in m' && m'[b'[i0][j].key] == b'[i0][j].value
    {
      if i0 == i {
        assert b'[i0][j].key == b[i][j].key;
        assert b'[i0][j] in c;
      }
    }
    assert AllDistinct(b');
    forall k0 | k0 in m'
      ensures hash(k0) >= 0 && KeyValuePair(k0, m'[k0]) in b'[IndexFor(hash(k0), |b'|)]
    {
      if k0 != k {
        assert Keyed(m, k0);
        assert KeyValuePair(k0, m[k0]) in b[IndexFor(hash(k0), |b|)];
      }
    }
  }

  /** `removePair` on the chain of a present key drops that entry from the
      map: with distinct keys the walk unlinks exactly the pair of `k`. */
  lemma RepresentsRemove<K, V>(b: Buckets<K, V>, m: map<K, V>, hash: K -> int, k: K)
    requires Represents(b, m, hash) && hash(k) >= 0 && k in m
    ensures b[IndexFor(hash(k), |b|)] != []
    ensures Represents(b[IndexFor(hash(k), |b|) := RemovePairChain(b[IndexFor(hash(k), |b|)], k)], m - {k}, hash)
  {
    var i := IndexFor(hash(k), |b|);
    assert Keyed(m, k);
    assert KeyValuePair(k, m[k]) in b[i];
    DistinctCountAtMostOne(b[i], k);
    RemovePairUnique(b[i], k);
    WithoutKeyDistinct(b[i], k);
    var c := WithoutKey(b[i], k);
    var b': Buckets<K, V> := b[i := c];
    var m' := m - {k};
    forall i0, j | 0 <= i0 < |b'| && 0 <= j < |b'[i0]|
      ensures hash(b'[i0][j].key) >= 0 && IndexFor(hash(b'[i0][j].key), |b'|) == i0
      ensures b'[i0][j].key in m' && m'[b'[i0][j].key] == b'[i0][j].value
    {
      if i0 == i {
        var u :| 0 <= u < |b[i]| && b[i][u] == c[j];
      }
    }
    assert AllDistinct(b');
    forall k0 | k0 in m'
      ensures hash(k0) >= 0 && KeyValuePair(k0, m'[k0]) in b'[IndexFor(hash(k0), |b'|)]
    {
      var i0 := IndexFor(hash(k0), |b|);
      assert Keyed(m, k0);
      assert KeyValuePair(k0, m[k0]) in b[i0];
      if i0 == i {
        var u :| 0 <= u < |b[i]| && b[i][u] == KeyValuePair(k0, m[k0]);
      }
    }
  }

  /** Every key of the chains has a non-negative hash code. */
  lemma RepresentsNonNegative<K, V>(b: Buckets<K, V>, m: map<K, V>, hash: K -> int)
    requires Represents(b, m, hash)
    ensures HashesNonNegative(Flatten(b), hash)
  {
    FlattenNonNegative(b, hash);
  }

  /** `resize(n)` moves the same mapping into `n` fresh lists. */
  lemma RepresentsResize<K, V>(b: Buckets<K, V>, m: map<K, V>, hash: K -> int, n: nat, b': Buckets<K, V>)
    requires Represents(b, m, hash) && n > 0 && HashesNonNegative(Flatten(b), hash)
    requires b' == InsertAll(EmptyBuckets(n), Flatten(b), hash)
    ensures Represents(b', m, hash)
  {
    var f := Flatten(b);
    FlattenNonNegative(b, hash);
    FlattenDistinct(b, hash);
    InsertAllPlaced(n, f, hash);
    InsertAllDistinct(n, f, hash);
    forall i, j | 0 <= i < |b'| && 0 <= j < |b'[i]|
      ensures b'[i][j].key in m && m[b'[i][j].key] == b'[i][j].value
    {
      InsertAllMember(EmptyBuckets(n), f, hash, i, b'[i][j]);
      FlattenMember(b, b'[i][j]);
      var i0 :| 0 <= i0 < |b| && b'[i][j] in b[i0];
      var t :| 0 <= t < |b[i0]| && b[i0][t] == b'[i][j];
    }
    forall k | k in m
      ensures hash(k) >= 0 && KeyValuePair(k, m[k]) in b'[IndexFor(hash(k), |b'|)]
    {
      var p := KeyValuePair(k, m[k]);
      assert Keyed(m, k);
      FlattenMember(b, p);
      InsertAllMember(EmptyBuckets(n), f, hash, IndexFor(hash(k), n), p);
    }
  }

  /** `getLoad() > 3.0`: for 32-bit counts and a positive capacity the
      floating-point quotient exceeds 3.0 exactly when the integer count
      exceeds three times the capacity. */
  predicate Overloaded(numEntries: int, capacity: int)
  {
    numEntries > 3 * capacity
  }

  class HashTable<K(==), V> {
    var storage: ArrayOfListsOfPairs<K, V>
    var numEntries: int
    var capacity: int
    const hash: K -> int
    ghost var Contents: map<K, V>
    ghost var Repr: set<object>

    ghost predicate Valid()
      reads this, Repr
    {
      Repr == {this, storage, storage.storage} &&
      storage.hash == hash &&
      capacity == storage.storage.Length && capacity >= 1 &&
      Represents(storage.storage[..], Contents, hash) &&
      numEntries == |Contents|
    }

    /** `new HashTable(numSlots)`: at least `MIN_SLOTS` empty slots. */
    constructor (numSlots: int, hash: K -> int)
      ensures Valid() && fresh(Repr)
      ensures Contents == map[] && numEntries == 0
      ensures capacity == if numSlots < MinSlots then MinSlots else numSlots
      ensures this.hash == hash
    {
      if numSlots < MinSlots {
        storage := new ArrayOfListsOfPairs<K, V>(MinSlots, hash);
        capacity := MinSlots;
      } else {
        storage := new ArrayOfListsOfPairs<K, V>(numSlots, hash);
        capacity := numSlots;
      }
      numEntries := 0;
      this.hash := hash;
      Contents := map[];
      new;
      Repr := {this, storage, storage.storage};
    }

    /** `size()`: the number of entries. */
    function Size(): (n: int)
      reads this, Repr
      requires Valid()
      ensures n == |Contents|
    {
      numEntries
    }

    /** `getNumSlots()`: the number of chains. */
    function GetNumSlots(): (n: int)
      reads this, Repr
      requires Valid()
      ensures n == storage.storage.Length && n >= 1
    {
      capacity
    }

    method Contains(key: K) returns (found: bool)
      requires Valid() && hash(key) >= 0
      ensures found <==> key in Contents
    {
      found := storage.ContainsKey(key);
      RepresentsLookup(storage.storage[..], Contents, hash, key);
    }

    /** What `get(key)` returns, read off the key's chain: None, for Java's
        null, exactly when the key is absent. */
    function Find(key: K): (value: Option<V>)
      reads this, Repr
      requires Valid() && hash(key) >= 0
      ensures value == if key in Contents then Some(Contents[key]) else None
    {
      RepresentsLookup(storage.storage[..], Contents, hash, key);
      Lookup(storage.storage[storage.GetIndex(key)], key)
    }

    /** `get(key)`. */
    method Get(key: K) returns (value: Option<V>)
      requires Valid() && hash(key) >= 0
      ensures value == Find(key)
    {
      var found := Contains(key);
      if !found {
        return None;
      }
      value := storage.GetValue(key);
      RepresentsLookup(storage.storage[..], Contents, hash, key);
    }

    /** `add(key, value)`, where None stands for a null key or value. */
    method Add(key: Option<K>, value: Option<V>) returns (ok: bool)
      requires Valid()
      requires key.Some? ==> hash(key.value) >= 0
      modifies Repr
      ensures Valid() && fresh(Repr - old(Repr))
      ensures ok <==> key.Some? && value.Some? && key.value !in old(Contents)
      ensures ok ==> Contents == old(Contents)[key.value := value.value]
      ensures !ok ==>
        Contents == old(Contents) && storage == old(storage) && storage.storage[..] == old(storage.storage[..])
      ensures capacity ==
        if ok && Overloaded(old(numEntries) + 1, old(capacity)) then 3 * old(capacity) else old(capacity)
      ensures old(numEntries) <= 3 * old(capacity) ==> numEntries <= 3 * capacity
    {
      if key.None? || value.None? {
        return false;
      }
      var k, v := key.value, value.value;
      var contain := Contains(k);
      if contain {
        return false;
      }
      AddAbsent(k, v);
      if Overloaded(numEntries, capacity) {
        Rehash(capacity * 3);
      }
      return true;
    }

    /** `storage.addPair(key, value)` followed by `numEntries++`, for a key
        the table does not hold. */
    method AddAbsent(key: K, value: V)
      requires Valid() && hash(key) >= 0 && key !in Contents
      modifies Repr
      ensures Valid() && Repr == old(Repr) && storage == old(storage)
      ensures Contents == old(Contents)[key := value]
      ensures numEntries == old(numEntries) + 1 && capacity == old(capacity)
    {
      RepresentsInsert(storage.storage[..], Contents, hash, key, value);
      storage.AddPair(key, value);
      numEntries := numEntries + 1;
      Contents := Contents[key := value];
    }

    /** `rehash(newSize)`. Below `MIN_SLOTS` the Java code first resizes to
        `MIN_SLOTS` and then, falling through, to `newSize` anyway. */
    method Rehash(newSize: int)
      requires Valid() && newSize >= 1
      modifies this
      ensures Valid() && fresh(Repr - old(Repr))
      ensures Contents == old(Contents) && numEntries == old(numEntries)
      ensures capacity == newSize
    {
      if newSize < MinSlots {
        ResizeStorage(MinSlots);
      }
      ResizeStorage(newSize);
    }

    /** `storage = storage.resize(n)` followed by `capacity = n`. */
    method ResizeStorage(n: int)
      requires Valid() && n >= 1
      modifies this
      ensures Valid() && fresh(Repr - old(Repr))
      ensures Contents == old(Contents) && numEntries == old(numEntries)
      ensures capacity == n
    {
      ghost var b := storage.storage[..];
      RepresentsNonNegative(b, Contents, hash);
      var moved := storage.Resize(n);
      storage, capacity, Repr := moved, n, {this, moved, moved.storage};
      RepresentsResize(b, Contents, hash, n, storage.storage[..]);
    }

    /** `replace(key, value)`. */
    method Replace(key: K, value: V) returns (ok: bool)
      requires Valid() && hash(key) >= 0
      modifies Repr
      ensures Valid() && Repr == old(Repr)
      ensures ok <==> key in old(Contents)
      ensures Contents == if ok then old(Contents)[key := value] else old(Contents)
      ensures !ok ==> storage.storage[..] == old(storage.storage[..])
      ensures numEntries == old(numEntries) && capacity == old(capacity)
    {
      ok := Contains(key);
      if !ok {
        return;
      }
      RepresentsReplace(storage.storage[..], Contents, hash, key, value);
      storage.ReplaceValue(key, value);
      Contents := Contents[key := value];
    }

    /** `remove(key)`. */
    method Remove(key: K) returns (ok: bool)
      requires Valid() && hash(key) >= 0
      modifies Repr
      ensures Valid() && Repr == old(Repr)
      ensures ok <==> key in old(Contents)
      ensures Contents == old(Contents) - {key}
      ensures numEntries == if ok then old(numEntries) - 1 else old(numEntries)
      ensures !ok ==> storage.storage[..] == old(storage.storage[..])
      ensures capacity == old(capacity)
    {
      ok := Contains(key);
      if !ok {
        return;
      }
      var index := storage.GetIndex(key);
      RepresentsRemove(storage.storage[..], Contents, hash, key);
      storage.RemovePair(index, key);
      numEntries := numEntries - 1;
      Contents := Contents - {key};
    }
  }
}

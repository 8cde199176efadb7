/** The bucket store: an array whose slots are the heads of singly linked
    chains of key-value pairs. Each slot is modelled as the sequence of pairs
    the chain holds, head first; the Java `hashCode()` of a key is the function
    `hash` the store is created with. */
module ListsOfPairs {
  import opened Wrappers
  import opened Pairs
  import opened Chains
  import opened BucketSpec

  class ArrayOfListsOfPairs<K(==), V> {
    const storage: array<Chain<K, V>>
    const hash: K -> int

    /** `new ArrayOfListsOfPairs(numLists)`: `numLists` empty chains. */
    constructor (numLists: nat, hash: K -> int)
      ensures fresh(storage) && storage.Length == numLists
      ensures storage[..] == EmptyBuckets(numLists)
      ensures this.hash == hash
    {
      storage := new Chain<K, V>[numLists](_ => []);
      this.hash := hash;
    }

    /** `getIndex(key)`: the Java remainder of the key's hash code by the
        number of lists. */
    function GetIndex(key: K): (index: int)
      requires storage.Length > 0
      ensures hash(key) >= 0 ==> 0 <= index < storage.Length
      ensures hash(key) < 0 ==> index <= 0
    {
      IndexFor(hash(key), storage.Length)
    }

    /** The Java code indexes `storage` with `getIndex(key)` without a check;
        this holds exactly when that access is legal. */
    predicate Indexable(key: K)
    {
      storage.Length > 0 && 0 <= GetIndex(key)
    }

    /** `getNumLists()`. */
    function GetNumLists(): (n: nat)
      ensures n == storage.Length
    {
      storage.Length
    }

    method ContainsKey(key: K) returns (found: bool)
      requires Indexable(key)
      ensures found <==> HasKey(storage[GetIndex(key)], key)
    {
      var chain := storage[GetIndex(key)];
      var j := 0;
      while j < |chain|
        invariant 0 <= j <= |chain|
        invariant forall t :: 0 <= t < j ==> chain[t].key != key
      {
        if chain[j].key == key {
          return true;
        }
        j := j + 1;
      }
      return false;
    }

    /** `addPair(key, value)`: a new node at the head of the key's chain. */
    method AddPair(key: K, value: V)
      requires Indexable(key)
      modifies storage
      ensures storage[..] ==
        old(storage[..])[GetIndex(key) := [KeyValuePair(key, value)] + old(storage[GetIndex(key)])]
    {
      var index := GetIndex(key);
      storage[index] := [KeyValuePair(key, value)] + storage[index];
    }

    /** `addNewEdge(id, value, to)`: a new node `(to, value)` at the head of
        chain `id`, whatever the hash of `to`. */
    method AddNewEdge(id: int, value: V, to: K)
      requires 0 <= id < storage.Length
      modifies storage
      ensures storage[..] == old(storage[..])[id := [KeyValuePair(to, value)] + old(storage[id])]
    {
      storage[id] := [KeyValuePair(to, value)] + storage[id];
    }

    /** `resize(size)`: a new store of `size` lists, filled by adding the pairs
        of chain 0, then chain 1, and so on, each chain head first. */
    method Resize(size: nat) returns (arr: ArrayOfListsOfPairs<K, V>)
      requires size > 0
      requires HashesNonNegative(Flatten(storage[..]), hash)
      ensures fresh(arr) && fresh(arr.storage) && arr.hash == hash
      ensures arr.storage.Length == size
      ensures arr.storage[..] == InsertAll(EmptyBuckets(size), Flatten(storage[..]), hash)
    {
      arr := new ArrayOfListsOfPairs(size, hash);
      FlattenNonNegative(storage[..], hash);
      for i := 0 to storage.Length
        invariant fresh(arr) && fresh(arr.storage) && arr.hash == hash
        invariant arr.storage.Length == size
        invariant HashesNonNegative(Flatten(storage[..i]), hash)
        invariant arr.storage[..] == InsertAll(EmptyBuckets(size), Flatten(storage[..i]), hash)
      {
        var chain := storage[i];
        ghost var done := Flatten(storage[..i]);
        assert storage[..i + 1][..i] == storage[..i] && storage[..][i] == chain;
        assert Flatten(storage[..i + 1]) == done + chain;
        arr.AddChain(chain, done);
        HashesNonNegativeConcat(done, chain, hash);
      }
      assert storage[..storage.Length] == storage[..];
    }

    /** The inner loop of `resize`: the pairs of `chain`, head first, added
        to this store after the pairs `done`. */
    method AddChain(chain: Chain<K, V>, ghost done: Chain<K, V>)
      requires storage.Length > 0 && HashesNonNegative(done, hash) && HashesNonNegative(chain, hash)
      requires storage[..] == InsertAll(EmptyBuckets(storage.Length), done, hash)
      modifies storage
      ensures storage[..] == InsertAll(EmptyBuckets(storage.Length), done + chain, hash)
    {
      assert done + chain[..0] == done;
      for j := 0 to |chain|
        invariant HashesNonNegative(done + chain[..j], hash)
        invariant storage[..] == InsertAll(EmptyBuckets(storage.Length), done + chain[..j], hash)
      {
        var p := chain[j];
        ghost var xs := done + chain[..j];
        assert done + chain[..j + 1] == xs + [p];
        InsertAllSnoc(EmptyBuckets(storage.Length), xs, p, hash);
        AddPair(p.key, p.value);
      }
      assert chain[..|chain|] == chain;
    }

    /** `replaceValue(key, value)`: the first node of the key's chain that
        holds the key gets the pair `(key, value)`. */
    method ReplaceValue(key: K, value: V)
      requires Indexable(key)
      modifies storage
      ensures storage[..] ==
        old(storage[..])[GetIndex(key) := ReplaceFirst(old(storage[GetIndex(key)]), key, value)]
    {
      var index := GetIndex(key);
      var chain := storage[index];
      var j := 0;
      while j < |chain|
        invariant 0 <= j <= |chain|
        invariant forall t :: 0 <= t < j ==> chain[t].key != key
      {
        if chain[j].key == key {
          assert FirstMatch(chain, key) == j;
          storage[index] := chain[j := KeyValuePair(key, value)];
          return;
        }
        j := j + 1;
      }
      assert !HasKey(chain, key);
    }

    /** `getValue(key)`: the value of the first node of the key's chain that
        holds the key; None stands for Java's null. */
    method GetValue(key: K) returns (value: Option<V>)
      requires Indexable(key)
      ensures value == Lookup(storage[GetIndex(key)], key)
    {
      var chain := storage[GetIndex(key)];
      value := None;
      var j := 0;
      while j < |chain|
        invariant 0 <= j <= |chain|
        invariant forall t :: 0 <= t < j ==> chain[t].key != key
      {
        if chain[j].key == key {
          assert FirstMatch(chain, key) == j;
          value := Some(chain[j].value);
          return;
        }
        j := j + 1;
      }
      assert !HasKey(chain, key);
    }

    /** `removePair(index, key)`. The Java code dereferences the head of chain
        `index` first, so that chain must not be empty. */
    method RemovePair(index: int, key: K)
      requires 0 <= index < storage.Length && storage[index] != []
      modifies storage
      ensures storage[..] == old(storage[..])[index := RemovePairChain(old(storage[index]), key)]
    {
      var chain := storage[index];
      if chain[0].key == key {
        storage[index] := chain[1..];
        assert storage[index] == RemovePairChain(old(storage[index]), key);
        return;
      }
      // The nodes still linked after the walk, and whether `previous` is a
      // node the walk has unlinked.
      var kept := [chain[0]];
      var previousUnlinked := false;
      var j := 1;
      while j < |chain|
        invariant 1 <= j <= |chain|
        invariant storage[..] == old(storage[..])
        invariant kept + Unlink(chain[j..], key, previousUnlinked) == RemovePairChain(chain, key)
      {
        assert chain[j..] == [chain[j]] + chain[j + 1..];
        if chain[j].key == key && !previousUnlinked {
          previousUnlinked := true;
        } else {
          kept := kept + [chain[j]];
          previousUnlinked := false;
        }
        j := j + 1;
      }
      assert chain[j..] == [];
      assert kept == RemovePairChain(chain, key);
      storage[index] := kept;
    }

    /** `getAllPairs(listId)`: the pairs of chain `listId`, head first. */
    method GetAllPairsAt(listId: int) returns (lst: seq<KeyValuePair<K, V>>)
      requires 0 <= listId < storage.Length
      ensures lst == storage[listId]
    {
      var chain := storage[listId];
      lst := [];
      var j := 0;
      while j < |chain|
        invariant 0 <= j <= |chain|
        invariant lst == chain[..j]
      {
        lst := lst + [chain[j]];
        j := j + 1;
      }
    }

    /** `getAllPairs()`: the chains one after the other, chain 0 first. */
    method GetAllPairs() returns (lst: seq<KeyValuePair<K, V>>)
      ensures lst == Flatten(storage[..])
    {
      lst := [];
      for i := 0 to storage.Length
        invariant lst == Flatten(storage[..i])
      {
        var pairs := GetAllPairsAt(i);
        assert storage[..i + 1][..i] == storage[..i];
        lst := lst + pairs;
      }
      assert storage[..storage.Length] == storage[..];
    }
  }
}

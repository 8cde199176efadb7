/** An immutable key-value entry whose equality and hash look at the key only. */
module Pairs {

  datatype KeyValuePair<K, V> = KeyValuePair(key: K, value: V)

  /** What `equals(Object o)` can be handed: another pair, or any other object. */
  datatype Object<K, V> = PairObject(pair: KeyValuePair<K, V>) | OtherObject

  function GetKey<K, V>(p: KeyValuePair<K, V>): (k: K)
  {
    p.key
  }

  function GetValue<K, V>(p: KeyValuePair<K, V>): (v: V)
  {
    p.value
  }

  /** The getters hand back exactly what the constructor was given. */
  lemma GettersReturnConstructorArguments<K, V>(k: K, v: V)
    ensures GetKey(KeyValuePair(k, v)) == k && GetValue(KeyValuePair(k, v)) == v
  {
  }

  /** `equals`: true only for another pair with an equal key; values are ignored. */
  function Equals<K(==), V>(p: KeyValuePair<K, V>, o: Object<K, V>): (b: bool)
    ensures o.OtherObject? ==> !b
    ensures o.PairObject? ==> (b <==> p.key == o.pair.key)
  {
    match o
    case PairObject(q) => p.key == q.key
    case OtherObject => false
  }

  /** `hashCode`: the hash of the key. */
  function HashCode<K, V>(p: KeyValuePair<K, V>, keyHash: K -> int): (h: int)
  {
    keyHash(p.key)
  }

  /** Two pairs with the same key are equal whatever their values. */
  lemma EqualsIgnoresValues<K, V>(k: K, v1: V, v2: V)
    ensures Equals(KeyValuePair(k, v1), PairObject(KeyValuePair(k, v2)))
  {
  }

  /** `equals` is an equivalence relation on pairs. */
  lemma EqualsIsEquivalence<K, V>(p: KeyValuePair<K, V>, q: KeyValuePair<K, V>, r: KeyValuePair<K, V>)
    ensures Equals(p, PairObject(p))
    ensures Equals(p, PairObject(q)) == Equals(q, PairObject(p))
    ensures Equals(p, PairObject(q)) && Equals(q, PairObject(r)) ==> Equals(p, PairObject(r))
  {
  }

  /** Equal pairs have equal hash codes, as the Java contract for hashCode demands. */
  lemma EqualPairsHashEqually<K, V>(p: KeyValuePair<K, V>, q: KeyValuePair<K, V>, keyHash: K -> int)
    requires Equals(p, PairObject(q))
    ensures HashCode(p, keyHash) == HashCode(q, keyHash)
  {
  }
}

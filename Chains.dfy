/** The value-level view of the bucket store: one chain is a sequence of pairs,
    head first, and a table of chains is a sequence of chains indexed by bucket.
    The class ArrayOfListsOfPairs is specified through these functions. */
module Chains {
  import opened Wrappers
  import opened Pairs

  type Chain<K, V> = seq<KeyValuePair<K, V>>

  // ---------------------------------------------------------------------------
  // Bucket index: Java's `%` truncates toward zero, so a negative hash code
  // gives a remainder that is zero or negative.

  /** Java's `a % n` for a positive divisor. */
  function JavaRem(a: int, n: int): (r: int)
    requires n > 0
    ensures a >= 0 ==> 0 <= r < n
    ensures a < 0 ==> -n < r <= 0
  {
    if a >= 0 then a % n else -((-a) % n)
  }

  /** `getIndex(key, capacity)`: the hash code modulo the capacity. It is a
      valid bucket for every non-negative hash code; a negative hash code gives a
      negative index unless the capacity divides it. */
  function IndexFor(hash: int, capacity: int): (index: int)
    requires capacity > 0
    ensures hash >= 0 ==> 0 <= index < capacity
    ensures hash < 0 ==> -capacity < index <= 0
    ensures index < 0 <==> hash < 0 && (-hash) % capacity != 0
  {
    JavaRem(hash, capacity)
  }

  /** A hash code of -1 in a table of two lists yields bucket -1, which the
      Java array access rejects. */
  lemma NegativeHashGivesNegativeIndex()
    ensures IndexFor(-1, 2) == -1
  {
  }

  // ---------------------------------------------------------------------------
  // One chain.

  predicate HasKey<K(==), V>(c: Chain<K, V>, k: K)
  {
    exists j :: 0 <= j < |c| && c[j].key == k
  }

  /** Position of the first pair with key `k`, or `|c|` when there is none. */
  function FirstMatch<K(==), V>(c: Chain<K, V>, k: K): (j: nat)
    ensures j <= |c|
    ensures forall i :: 0 <= i < j ==> c[i].key != k
    ensures j < |c| ==> c[j].key == k
    ensures j == |c| <==> !HasKey(c, k)
  {
    if c == [] then 0
    else if c[0].key == k then 0
    else 1 + FirstMatch(c[1..], k)
  }

  /** The lookup walk of `containsKey`/`getValue`: the value of the first pair
      with key `k`, or None. */
  function Lookup<K(==), V>(c: Chain<K, V>, k: K): (r: Option<V>)
    ensures r.None? <==> !HasKey(c, k)
    ensures r.Some? ==> KeyValuePair(k, r.value) in c
  {
    var j := FirstMatch(c, k);
    if j < |c| then Some(c[j].value) else None
  }

  /** No two pairs of the chain share a key. */
  predicate DistinctKeys<K(==), V>(c: Chain<K, V>)
  {
    forall i, j :: 0 <= i < j < |c| ==> c[i].key != c[j].key
  }

  /** With distinct keys, the lookup finds the one pair the key belongs to. */
  lemma LookupDistinct<K, V>(c: Chain<K, V>, k: K, v: V)
    requires DistinctKeys(c)
    requires KeyValuePair(k, v) in c
    ensures Lookup(c, k) == Some(v)
  {
    var i :| 0 <= i < |c| && c[i] == KeyValuePair(k, v);
    var j := FirstMatch(c, k);
    assert j <= i;
  }

  /** `replaceValue`'s walk: the first pair with key `k` gets value `v`. */
  function ReplaceFirst<K(==), V>(c: Chain<K, V>, k: K, v: V): (r: Chain<K, V>)
    ensures |r| == |c|
    ensures forall i :: 0 <= i < |c| ==> r[i].key == c[i].key
    ensures !HasKey(c, k) ==> r == c
    ensures HasKey(c, k) ==> Lookup(r, k) == Some(v)
    ensures forall i :: 0 <= i < |c| && i != FirstMatch(c, k) ==> r[i] == c[i]
  {
    var j := FirstMatch(c, k);
    if j < |c| then
      var r := c[j := KeyValuePair(k, v)];
      assert FirstMatch(r, k) == j by {
        var j' := FirstMatch(r, k);
        assert r[j].key == k;
        assert HasKey(r, k);
      }
      r
    else c
  }

  /** Replacing keeps the keys distinct, and the pairs of the result are those
      of the chain with the pair of `k` given the new value. */
  lemma ReplaceFirstDistinct<K, V>(c: Chain<K, V>, k: K, v: V)
    requires DistinctKeys(c)
    ensures DistinctKeys(ReplaceFirst(c, k, v))
    ensures forall p :: p in ReplaceFirst(c, k, v) <==>
      (p in c && p.key != k) || (p == KeyValuePair(k, v) && HasKey(c, k))
  {
    var r := ReplaceFirst(c, k, v);
    var j := FirstMatch(c, k);
    forall p
      ensures p in r <==> (p in c && p.key != k) || (p == KeyValuePair(k, v) && HasKey(c, k))
    {
      if p in r {
        var i :| 0 <= i < |r| && r[i] == p;
        if i != j { assert c[i] == p; }
      }
      if p in c && p.key != k {
        var i :| 0 <= i < |c| && c[i] == p;
        assert i != j;
        assert r[i] == p;
      }
      if p == KeyValuePair(k, v) && HasKey(c, k) {
        assert r[j] == p;
      }
    }
  }

  /** Number of pairs with key `k`. */
  function Count<K(==), V>(c: Chain<K, V>, k: K): (n: nat)
    ensures n <= |c|
  {
    if c == [] then 0
    else (if c[0].key == k then 1 else 0) + Count(c[1..], k)
  }

  /** The chain with every pair of key `k` dropped, the others in order. */
  function WithoutKey<K(==), V>(c: Chain<K, V>, k: K): (r: Chain<K, V>)
    ensures |r| + Count(c, k) == |c|
    ensures forall i :: 0 <= i < |r| ==> r[i] in c && r[i].key != k
    ensures forall i :: 0 <= i < |c| && c[i].key != k ==> c[i] in r
  {
    if c == [] then []
    else (if c[0].key == k then [] else [c[0]]) + WithoutKey(c[1..], k)
  }

  /** The chain with every pair of value `e` dropped, the others in order. */
  function WithoutValue<K, V(==)>(c: Chain<K, V>, e: V): (r: Chain<K, V>)
    ensures |r| <= |c|
    ensures forall i :: 0 <= i < |r| ==> r[i] in c && r[i].value != e
    ensures forall i :: 0 <= i < |c| && c[i].value != e ==> c[i] in r
  {
    if c == [] then []
    else (if c[0].value == e then [] else [c[0]]) + WithoutValue(c[1..], e)
  }

  lemma {:induction false} CountPositive<K, V>(c: Chain<K, V>, k: K)
    ensures Count(c, k) > 0 <==> HasKey(c, k)
  {
    if c != [] {
      CountPositive(c[1..], k);
      if HasKey(c[1..], k) {
        var j :| 0 <= j < |c[1..]| && c[1..][j].key == k;
        assert c[j + 1].key == k;
      }
      if HasKey(c, k) && c[0].key != k {
        var j :| 0 <= j < |c| && c[j].key == k;
        assert c[1..][j - 1].key == k;
      }
    }
  }

  lemma {:induction false} DistinctCountAtMostOne<K, V>(c: Chain<K, V>, k: K)
    requires DistinctKeys(c)
    ensures Count(c, k) <= 1
  {
    if c != [] {
      assert DistinctKeys(c[1..]);
      DistinctCountAtMostOne(c[1..], k);
      if c[0].key == k {
        CountPositive(c[1..], k);
        assert !HasKey(c[1..], k) by {
          forall j | 0 <= j < |c[1..]|
            ensures c[1..][j].key != k
          {
            assert c[1..][j] == c[j + 1];
          }
        }
      }
    }
  }

  lemma {:induction false} WithoutAbsentKey<K, V>(c: Chain<K, V>, k: K)
    requires Count(c, k) == 0
    ensures WithoutKey(c, k) == c
  {
    if c != [] {
      WithoutAbsentKey(c[1..], k);
    }
  }

  /** Dropping the pairs of one key keeps the other keys distinct. */
  lemma {:induction false} WithoutKeyDistinct<K, V>(c: Chain<K, V>, k: K)
    requires DistinctKeys(c)
    ensures DistinctKeys(WithoutKey(c, k))
  {
    if c != [] {
      var tail := c[1..];
      assert DistinctKeys(tail);
      WithoutKeyDistinct(tail, k);
      var w := WithoutKey(tail, k);
      if c[0].key != k {
        var r := [c[0]] + w;
        forall t | 0 <= t < |w|
          ensures w[t].key != c[0].key
        {
          var u :| 0 <= u < |tail| && tail[u] == w[t];
          assert c[u + 1] == w[t];
        }
        forall x, y | 0 <= x < y < |r|
          ensures r[x].key != r[y].key
        {
          if x > 0 {
            assert r[x] == w[x - 1] && r[y] == w[y - 1];
          } else {
            assert r[y] == w[y - 1];
          }
        }
      }
    }
  }

  // ---------------------------------------------------------------------------
  // `removePair`'s pointer walk.
  //
  // After the head has been checked, `previous` and `current` walk the chain and
  // `previous` is moved onto `current` even when `current` has just been unlinked.
  // A matching node whose predecessor was itself unlinked is therefore written
  // through the dead predecessor and stays in the chain: in a run of equal keys
  // every other one is removed.

  /** The nodes left reachable by the walk over `c`; `prevUnlinked` says whether
      the node before `c` was unlinked. */
  function Unlink<K(==), V>(c: Chain<K, V>, k: K, prevUnlinked: bool): (r: Chain<K, V>)
    ensures |r| <= |c|
  {
    if c == [] then []
    else if c[0].key == k && !prevUnlinked then Unlink(c[1..], k, true)
    else [c[0]] + Unlink(c[1..], k, false)
  }

  /** The chain left by `removePair(index, k)` on a non-empty chain `c`. */
  function RemovePairChain<K(==), V>(c: Chain<K, V>, k: K): (r: Chain<K, V>)
    requires c != []
    ensures c[0].key == k ==> r == c[1..]
    ensures c[0].key != k ==> r != [] && r[0] == c[0]
  {
    if c[0].key == k then c[1..]
    else [c[0]] + Unlink(c[1..], k, false)
  }

  lemma {:induction false} UnlinkKeepsOtherKeys<K, V>(c: Chain<K, V>, k: K, prevUnlinked: bool)
    ensures WithoutKey(Unlink(c, k, prevUnlinked), k) == WithoutKey(c, k)
    ensures Count(Unlink(c, k, prevUnlinked), k) <= Count(c, k)
    ensures multiset(Unlink(c, k, prevUnlinked)) <= multiset(c)
  {
    if c != [] {
      UnlinkKeepsOtherKeys(c[1..], k, c[0].key == k && !prevUnlinked);
      assert c == [c[0]] + c[1..];
      if !(c[0].key == k && !prevUnlinked) {
        var t := Unlink(c[1..], k, false);
        assert ([c[0]] + t)[1..] == t;
      }
    }
  }

  lemma {:induction false} UnlinkAbsent<K, V>(c: Chain<K, V>, k: K, prevUnlinked: bool)
    requires Count(c, k) == 0
    ensures Unlink(c, k, prevUnlinked) == c
  {
    if c != [] {
      UnlinkAbsent(c[1..], k, false);
    }
  }

  lemma {:induction false} UnlinkRemovesOne<K, V>(c: Chain<K, V>, k: K)
    requires Count(c, k) > 0
    ensures Count(Unlink(c, k, false), k) < Count(c, k)
  {
    if c[0].key == k {
      UnlinkKeepsOtherKeys(c[1..], k, true);
    } else {
      UnlinkRemovesOne(c[1..], k);
      var t := Unlink(c[1..], k, false);
      assert ([c[0]] + t)[1..] == t;
    }
  }

  lemma {:induction false} UnlinkUnique<K, V>(c: Chain<K, V>, k: K)
    requires Count(c, k) <= 1
    ensures Unlink(c, k, false) == WithoutKey(c, k)
  {
    if c != [] {
      if c[0].key == k {
        UnlinkAbsent(c[1..], k, true);
        WithoutAbsentKey(c[1..], k);
      } else {
        UnlinkUnique(c[1..], k);
      }
    }
  }

  /** `removePair` only drops pairs of key `k`: every other pair stays, in order. */
  lemma RemovePairKeepsOtherKeys<K, V>(c: Chain<K, V>, k: K)
    requires c != []
    ensures WithoutKey(RemovePairChain(c, k), k) == WithoutKey(c, k)
    ensures multiset(RemovePairChain(c, k)) <= multiset(c)
  {
    if c[0].key != k {
      UnlinkKeepsOtherKeys(c[1..], k, false);
      var t := Unlink(c[1..], k, false);
      assert ([c[0]] + t)[1..] == t;
      assert c == [c[0]] + c[1..];
    } else {
      assert c == [c[0]] + c[1..];
    }
  }

  /** When `k` occurs, `removePair` removes at least one of its pairs. */
  lemma RemovePairShrinksCount<K, V>(c: Chain<K, V>, k: K)
    requires c != []
    ensures Count(RemovePairChain(c, k), k) <= Count(c, k)
    ensures HasKey(c, k) ==> Count(RemovePairChain(c, k), k) < Count(c, k)
  {
    CountPositive(c, k);
    if c[0].key != k {
      UnlinkKeepsOtherKeys(c[1..], k, false);
      if HasKey(c, k) {
        UnlinkRemovesOne(c[1..], k);
      }
      var t := Unlink(c[1..], k, false);
      assert ([c[0]] + t)[1..] == t;
    }
  }

  /** With at most one pair of key `k`, `removePair` removes exactly that pair
      and keeps the others in order. */
  lemma RemovePairUnique<K, V>(c: Chain<K, V>, k: K)
    requires c != []
    requires Count(c, k) <= 1
    ensures RemovePairChain(c, k) == WithoutKey(c, k)
  {
    if c[0].key == k {
      WithoutAbsentKey(c[1..], k);
    } else {
      UnlinkUnique(c[1..], k);
    }
  }

  /** Three pairs, the last two with key 1: the walk unlinks the second pair,
      then writes the third pair's unlinking into the dead second node, so the
      third pair stays. */
  lemma RemovePairDuplicateRun()
    ensures RemovePairChain([KeyValuePair(0, 'a'), KeyValuePair(1, 'b'), KeyValuePair(1, 'c')], 1)
         == [KeyValuePair(0, 'a'), KeyValuePair(1, 'c')]
  {
    var c := [KeyValuePair(0, 'a'), KeyValuePair(1, 'b'), KeyValuePair(1, 'c')];
    assert c[1..] == [KeyValuePair(1, 'b'), KeyValuePair(1, 'c')];
    assert c[1..][1..] == [KeyValuePair(1, 'c')];
    assert c[1..][1..][1..] == [];
  }

  // ---------------------------------------------------------------------------
  // Walks over a chain used by the graph.

  /** Position of the first pair with value `e`, or `|c|` when there is none. */
  function FirstWithValue<K, V(==)>(c: Chain<K, V>, e: V): (j: nat)
    ensures j <= |c|
    ensures forall i :: 0 <= i < j ==> c[i].value != e
    ensures j < |c| ==> c[j].value == e
    ensures j < |c| <==> e in Values(c)
  {
    if c == [] then 0
    else if c[0].value == e then 0
    else 1 + FirstWithValue(c[1..], e)
  }

  /** The value of the last pair with key `k`: a scan that overwrites its
      answer at every match. */
  function LastValue<K(==), V>(c: Chain<K, V>, k: K): (r: Option<V>)
    ensures r.None? <==> !HasKey(c, k)
    ensures r.Some? ==>
      exists j :: 0 <= j < |c| && c[j] == KeyValuePair(k, r.value) && forall i :: j < i < |c| ==> c[i].key != k
  {
    if c == [] then None
    else if c[|c| - 1].key == k then Some(c[|c| - 1].value)
    else
      var r := LastValue(c[..|c| - 1], k);
      assert forall i :: 0 <= i < |c| - 1 ==> c[..|c| - 1][i] == c[i];
      r
  }

  /** The values of the pairs with key `k`, in chain order. */
  function ValuesWithKey<K(==), V>(c: Chain<K, V>, k: K): (r: seq<V>)
  {
    if c == [] then []
    else ValuesWithKey(c[..|c| - 1], k) + (if c[|c| - 1].key == k then [c[|c| - 1].value] else [])
  }

  /** The values listed for `k` are those of the pairs keyed `k`, and there
      are some exactly when `k` is a key of the chain. */
  lemma {:induction false} ValuesWithKeyMember<K, V>(c: Chain<K, V>, k: K)
    ensures forall i :: 0 <= i < |ValuesWithKey(c, k)| ==> KeyValuePair(k, ValuesWithKey(c, k)[i]) in c
    ensures forall i :: 0 <= i < |c| && c[i].key == k ==> c[i].value in ValuesWithKey(c, k)
    ensures ValuesWithKey(c, k) != [] <==> HasKey(c, k)
  {
    if c != [] {
      var front := c[..|c| - 1];
      ValuesWithKeyMember(front, k);
      assert forall i :: 0 <= i < |c| - 1 ==> front[i] == c[i];
      var r := ValuesWithKey(c, k);
      var rf := ValuesWithKey(front, k);
      forall i | 0 <= i < |r|
        ensures KeyValuePair(k, r[i]) in c
      {
        if i < |rf| {
          assert r[i] == rf[i];
          var t :| 0 <= t < |front| && front[t] == KeyValuePair(k, rf[i]);
          assert c[t] == front[t];
        } else {
          assert c[|c| - 1] == KeyValuePair(k, r[i]);
        }
      }
      if HasKey(front, k) {
        var t :| 0 <= t < |front| && front[t].key == k;
        assert c[t].key == k;
      }
    }
  }

  lemma {:induction false} CountConcat<K, V>(x: Chain<K, V>, y: Chain<K, V>, k: K)
    ensures Count(x + y, k) == Count(x, k) + Count(y, k)
  {
    if x != [] {
      assert (x + y)[1..] == x[1..] + y;
      CountConcat(x[1..], y, k);
    } else {
      assert x + y == y;
    }
  }

  lemma {:induction false} WithoutKeyConcat<K, V>(x: Chain<K, V>, y: Chain<K, V>, k: K)
    ensures WithoutKey(x + y, k) == WithoutKey(x, k) + WithoutKey(y, k)
  {
    if x != [] {
      assert (x + y)[1..] == x[1..] + y;
      WithoutKeyConcat(x[1..], y, k);
    } else {
      assert x + y == y;
    }
  }

  lemma {:induction false} WithoutValueConcat<K, V>(x: Chain<K, V>, y: Chain<K, V>, e: V)
    ensures WithoutValue(x + y, e) == WithoutValue(x, e) + WithoutValue(y, e)
  {
    if x != [] {
      assert (x + y)[1..] == x[1..] + y;
      WithoutValueConcat(x[1..], y, e);
    } else {
      assert x + y == y;
    }
  }

  lemma {:induction false} WithoutKeyTwice<K, V>(c: Chain<K, V>, k: K)
    ensures WithoutKey(WithoutKey(c, k), k) == WithoutKey(c, k)
  {
    var w := WithoutKey(c, k);
    CountPositive(w, k);
    WithoutAbsentKey(w, k);
  }

  lemma {:induction false} WithoutValueTwice<K, V>(c: Chain<K, V>, e: V)
    ensures WithoutValue(WithoutValue(c, e), e) == WithoutValue(c, e)
  {
    if c != [] {
      WithoutValueTwice(c[1..], e);
      var t := WithoutValue(c[1..], e);
      if c[0].value != e {
        assert ([c[0]] + t)[1..] == t;
      } else {
        assert [] + t == t;
      }
    }
  }

  function Keys<K, V>(c: Chain<K, V>): (ks: seq<K>)
    ensures |ks| == |c| && forall i :: 0 <= i < |c| ==> ks[i] == c[i].key
  {
    if c == [] then [] else [c[0].key] + Keys(c[1..])
  }

  function Values<K, V>(c: Chain<K, V>): (vs: seq<V>)
    ensures |vs| == |c| && forall i :: 0 <= i < |c| ==> vs[i] == c[i].value
  {
    if c == [] then [] else [c[0].value] + Values(c[1..])
  }

  /** A position before which no pair holds `e`, and at which one does or
      the chain ends, is the first with value `e`. */
  lemma FirstWithValueIsFirst<K, V>(c: Chain<K, V>, e: V, j: nat)
    requires j <= |c| && (j < |c| ==> c[j].value == e)
    requires forall i :: 0 <= i < j ==> c[i].value != e
    ensures FirstWithValue(c, e) == j
  {
  }

  /** Dropping the pairs holding `e` drops exactly the value `e`. */
  lemma WithoutValueValues<K, V>(c: Chain<K, V>, e: V, other: V)
    ensures e !in Values(WithoutValue(c, e))
    ensures other != e ==> (other in Values(WithoutValue(c, e)) <==> other in Values(c))
  {
    var w := WithoutValue(c, e);
    if other != e && other in Values(c) {
      var t :| 0 <= t < |c| && Values(c)[t] == other;
      assert c[t] in w;
      var u :| 0 <= u < |w| && w[u] == c[t];
      assert Values(w)[u] == other;
    }
    if other in Values(w) {
      var u :| 0 <= u < |w| && Values(w)[u] == other;
      assert w[u] in c;
      var t :| 0 <= t < |c| && c[t] == w[u];
      assert Values(c)[t] == other;
    }
  }

  /** Dropping the pairs of one value keeps the keys distinct. */
  lemma {:induction false} WithoutValueDistinct<K, V>(c: Chain<K, V>, e: V)
    requires DistinctKeys(c)
    ensures DistinctKeys(WithoutValue(c, e))
  {
    if c != [] {
      var tail := c[1..];
      assert DistinctKeys(tail);
      WithoutValueDistinct(tail, e);
      var w := WithoutValue(tail, e);
      if c[0].value != e {
        var r := [c[0]] + w;
        forall t | 0 <= t < |w|
          ensures w[t].key != c[0].key
        {
          var u :| 0 <= u < |tail| && tail[u] == w[t];
          assert c[u + 1] == w[t];
        }
        forall x, y | 0 <= x < y < |r|
          ensures r[x].key != r[y].key
        {
          if x > 0 {
            assert r[x] == w[x - 1] && r[y] == w[y - 1];
          } else {
            assert r[y] == w[y - 1];
          }
        }
      }
    }
  }

  /** One step of the `removeEdge` walk over a snapshot `c` of a list with
      distinct keys: the live list is the snapshot with the pairs holding `e`
      dropped from its first `j` pairs; removing the key of pair `j` when it
      holds `e` advances that to `j + 1`. */
  lemma DropValueStep<K, V>(c: Chain<K, V>, j: nat, e: V)
    requires DistinctKeys(c) && j < |c|
    ensures WithoutValue(c[..j], e) + c[j..] != []
    ensures c[j].value == e ==>
      RemovePairChain(WithoutValue(c[..j], e) + c[j..], c[j].key) == WithoutValue(c[..j + 1], e) + c[j + 1..]
    ensures c[j].value != e ==>
      WithoutValue(c[..j], e) + c[j..] == WithoutValue(c[..j + 1], e) + c[j + 1..]
  {
    var pre, rest := c[..j], c[j + 1..];
    assert c[..j + 1] == pre + [c[j]];
    assert c[j..] == [c[j]] + rest;
    WithoutValueConcat(pre, [c[j]], e);
    assert [c[j]][1..] == [];
    var w := WithoutValue(pre, e);
    if c[j].value == e {
      assert WithoutValue(c[..j + 1], e) == w;
      DropMatchingPair(c, j, e);
    } else {
      assert WithoutValue(c[..j + 1], e) == w + [c[j]];
      assert w + ([c[j]] + rest) == (w + [c[j]]) + rest;
    }
  }

  lemma DropMatchingPair<K, V>(c: Chain<K, V>, j: nat, e: V)
    requires DistinctKeys(c) && j < |c| && c[j].value == e
    ensures RemovePairChain(WithoutValue(c[..j], e) + c[j..], c[j].key) == WithoutValue(c[..j], e) + c[j + 1..]
  {
    var w := WithoutValue(c[..j], e);
    var k := c[j].key;
    var rest := c[j + 1..];
    OnlyPairWithKey(c, j);
    CountWithoutValue(c[..j], e, k);
    assert c[j..] == [c[j]] + rest;
    WithoutOnlyKey(w, c[j], rest);
  }

  lemma WithoutOnlyKey<K, V>(w: Chain<K, V>, p: KeyValuePair<K, V>, rest: Chain<K, V>)
    requires Count(w, p.key) == 0 && Count(rest, p.key) == 0
    ensures RemovePairChain(w + ([p] + rest), p.key) == w + rest
  {
    var k := p.key;
    var cur := w + ([p] + rest);
    assert Count(cur, k) == 1 by {
      CountConcat(w, [p] + rest, k);
      assert ([p] + rest)[1..] == rest;
    }
    RemovePairUnique(cur, k);
    var tail := [p] + rest;
    assert tail[0] == p && tail[1..] == rest;
    assert WithoutKey(tail, k) == rest by {
      WithoutAbsentKey(rest, k);
    }
    WithoutKeyConcat(w, tail, k);
    WithoutAbsentKey(w, k);
    assert WithoutKey(cur, k) == w + rest;
  }

  /** With distinct keys, no pair before or after pair `j` has its key. */
  lemma OnlyPairWithKey<K, V>(c: Chain<K, V>, j: nat)
    requires DistinctKeys(c) && j < |c|
    ensures Count(c[..j], c[j].key) == 0 && Count(c[j + 1..], c[j].key) == 0
  {
    var k := c[j].key;
    assert c == c[..j] + c[j..];
    assert c[j..] == [c[j]] + c[j + 1..];
    CountConcat(c[..j], c[j..], k);
    CountConcat([c[j]], c[j + 1..], k);
    DistinctCountAtMostOne(c, k);
  }

  lemma CountWithoutValue<K, V>(c: Chain<K, V>, e: V, k: K)
    requires Count(c, k) == 0
    ensures Count(WithoutValue(c, e), k) == 0
  {
    CountPositive(c, k);
    CountPositive(WithoutValue(c, e), k);
  }

  /** What the `removeVertex` walk over a snapshot `c` keeps true of the live
      list `cur` before pair `j`: the pairs of other keys are those of `c`,
      and either nothing was removed yet from a list of `k`-pairs only, or
      `cur` holds no more `k`-pairs than the snapshot has left. */
  ghost predicate StripPending<K, V>(c: Chain<K, V>, j: nat, cur: Chain<K, V>, k: K)
    requires j <= |c|
  {
    WithoutKey(cur, k) == WithoutKey(c, k) &&
    (cur == c[j..] || (WithoutKey(c, k) != [] && Count(cur, k) <= Count(c[j..], k)))
  }

  lemma StripStart<K, V>(c: Chain<K, V>, k: K)
    ensures StripPending(c, 0, c, k)
  {
    assert c[0..] == c;
  }

  /** One step of the `removeVertex` walk: at a pair keyed `k` the live list
      is not empty, and removing `k` from it keeps the walk on track. */
  lemma StripStep<K, V>(c: Chain<K, V>, j: nat, cur: Chain<K, V>, k: K)
    requires j < |c| && StripPending(c, j, cur, k)
    ensures c[j].key == k ==> cur != [] && StripPending(c, j + 1, RemovePairChain(cur, k), k)
    ensures c[j].key != k ==> StripPending(c, j + 1, cur, k)
  {
    assert c[j..][0] == c[j] && c[j..][1..] == c[j + 1..];
    assert Count(c[j..], k) == (if c[j].key == k then 1 else 0) + Count(c[j + 1..], k);
    if c[j].key == k {
      if cur == c[j..] {
        assert WithoutKey(cur, k) == WithoutKey(cur[1..], k);
      } else {
        assert cur != [];
        RemovePairKeepsOtherKeys(cur, k);
        RemovePairShrinksCount(cur, k);
        CountPositive(cur, k);
      }
    } else if cur == c[j..] {
      assert c[j] in WithoutKey(c, k);
    }
  }

  /** At the end of the `removeVertex` walk the live list is the snapshot
      without its `k`-pairs. */
  lemma StripDone<K, V>(c: Chain<K, V>, cur: Chain<K, V>, k: K)
    requires StripPending(c, |c|, cur, k)
    ensures cur == WithoutKey(c, k)
  {
    assert c[|c|..] == [];
    if cur != [] {
      WithoutAbsentKey(cur, k);
    }
  }

  lemma ValuesWithKeySnoc<K, V>(c: Chain<K, V>, j: nat, k: K)
    requires j < |c|
    ensures ValuesWithKey(c[..j + 1], k) == ValuesWithKey(c[..j], k) + (if c[j].key == k then [c[j].value] else [])
  {
    assert c[..j + 1][..j] == c[..j];
  }

  lemma LastValueSnoc<K, V>(c: Chain<K, V>, j: nat, k: K)
    requires j < |c|
    ensures LastValue(c[..j + 1], k) == if c[j].key == k then Some(c[j].value) else LastValue(c[..j], k)
  {
    assert c[..j + 1][..j] == c[..j];
  }
}

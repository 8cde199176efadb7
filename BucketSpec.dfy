/** A table of chains as a value: bucket `i` is the chain stored at index `i`
    of the backing array. These functions describe resizing (re-inserting every
    pair, in array order, into a fresh table) and what it preserves. */
module BucketSpec {
  import opened Pairs
  import opened Chains

  type Buckets<K, V> = seq<Chain<K, V>>

  /** `getAllPairs()`: the buckets concatenated, bucket 0 first. */
  function Flatten<K, V>(b: Buckets<K, V>): (r: Chain<K, V>)
  {
    if b == [] then [] else Flatten(b[..|b| - 1]) + b[|b| - 1]
  }

  /** A table of `n` empty chains, as `new Node[n]` creates. */
  function EmptyBuckets<K, V>(n: nat): (b: Buckets<K, V>)
    ensures |b| == n && forall i :: 0 <= i < n ==> b[i] == []
  {
    seq(n, _ => [])
  }

  predicate HashesNonNegative<K, V>(xs: Chain<K, V>, hash: K -> int)
  {
    forall j :: 0 <= j < |xs| ==> hash(xs[j].key) >= 0
  }

  /** `addPair`: the pair is prepended to the chain its key hashes to. */
  function Insert<K, V>(b: Buckets<K, V>, p: KeyValuePair<K, V>, hash: K -> int): (r: Buckets<K, V>)
    requires |b| > 0 && hash(p.key) >= 0
    ensures |r| == |b|
  {
    var i := IndexFor(hash(p.key), |b|);
    b[i := [p] + b[i]]
  }

  /** Inserting the pairs of `xs` one after the other, first to last. */
  function InsertAll<K, V>(b: Buckets<K, V>, xs: Chain<K, V>, hash: K -> int): (r: Buckets<K, V>)
    requires |b| > 0 && HashesNonNegative(xs, hash)
    ensures |r| == |b|
  {
    if xs == [] then b
    else Insert(InsertAll(b, xs[..|xs| - 1], hash), xs[|xs| - 1], hash)
  }

  /** Every pair sits in the bucket its non-negative hash code selects. */
  ghost predicate Placed<K, V>(b: Buckets<K, V>, hash: K -> int)
  {
    |b| > 0 &&
    forall i, j :: 0 <= i < |b| && 0 <= j < |b[i]| ==>
      hash(b[i][j].key) >= 0 && IndexFor(hash(b[i][j].key), |b|) == i
  }

  ghost predicate AllDistinct<K, V>(b: Buckets<K, V>)
  {
    forall i :: 0 <= i < |b| ==> DistinctKeys(b[i])
  }

  // ---------------------------------------------------------------------------

  lemma {:induction false} FlattenMember<K, V>(b: Buckets<K, V>, p: KeyValuePair<K, V>)
    ensures p in Flatten(b) <==> exists i :: 0 <= i < |b| && p in b[i]
  {
    if b != [] {
      var front := b[..|b| - 1];
      FlattenMember(front, p);
      if p in Flatten(b) && p !in b[|b| - 1] {
        var i :| 0 <= i < |front| && p in front[i];
        assert b[i] == front[i];
      }
      if exists i :: 0 <= i < |b| && p in b[i] {
        var i :| 0 <= i < |b| && p in b[i];
        if i < |b| - 1 {
          assert front[i] == b[i];
        }
      }
    }
  }

  /** Prepending a pair to one bucket adds exactly that pair to the
      concatenation. */
  lemma {:induction false} FlattenPrepend<K, V>(b: Buckets<K, V>, i: nat, p: KeyValuePair<K, V>)
    requires i < |b|
    ensures multiset(Flatten(b[i := [p] + b[i]])) == multiset(Flatten(b)) + multiset([p])
  {
    var b' := b[i := [p] + b[i]];
    var n := |b| - 1;
    assert Flatten(b) == Flatten(b[..n]) + b[n];
    assert Flatten(b') == Flatten(b'[..n]) + b'[n];
    if i == n {
      assert b'[..n] == b[..n];
      assert multiset([p] + b[i]) == multiset([p]) + multiset(b[i]);
    } else {
      assert b'[..n] == b[..n][i := [p] + b[..n][i]];
      FlattenPrepend(b[..n], i, p);
      assert b'[n] == b[n];
    }
  }

  /** The hash codes in the concatenation are non-negative iff those of
      every bucket are. */
  lemma FlattenNonNegative<K, V>(b: Buckets<K, V>, hash: K -> int)
    ensures HashesNonNegative(Flatten(b), hash) <==>
      forall i :: 0 <= i < |b| ==> HashesNonNegative(b[i], hash)
  {
    var f := Flatten(b);
    if forall i :: 0 <= i < |b| ==> HashesNonNegative(b[i], hash) {
      forall j | 0 <= j < |f|
        ensures hash(f[j].key) >= 0
      {
        FlattenMember(b, f[j]);
        var i :| 0 <= i < |b| && f[j] in b[i];
        var t :| 0 <= t < |b[i]| && b[i][t] == f[j];
      }
    }
    if HashesNonNegative(f, hash) {
      forall i, t | 0 <= i < |b| && 0 <= t < |b[i]|
        ensures hash(b[i][t].key) >= 0
      {
        FlattenMember(b, b[i][t]);
        var j :| 0 <= j < |f| && f[j] == b[i][t];
      }
    }
  }

  lemma HashesNonNegativeConcat<K, V>(xs: Chain<K, V>, ys: Chain<K, V>, hash: K -> int)
    requires HashesNonNegative(xs, hash) && HashesNonNegative(ys, hash)
    ensures HashesNonNegative(xs + ys, hash)
  {
  }

  lemma {:induction false} FlattenEmpty<K, V>(n: nat)
    ensures Flatten(EmptyBuckets<K, V>(n)) == []
  {
    if n > 0 {
      assert EmptyBuckets<K, V>(n)[..n - 1] == EmptyBuckets<K, V>(n - 1);
      FlattenEmpty<K, V>(n - 1);
    }
  }

  lemma InsertAllSnoc<K, V>(b: Buckets<K, V>, xs: Chain<K, V>, p: KeyValuePair<K, V>, hash: K -> int)
    requires |b| > 0 && HashesNonNegative(xs, hash) && hash(p.key) >= 0
    ensures HashesNonNegative(xs + [p], hash)
    ensures InsertAll(b, xs + [p], hash) == Insert(InsertAll(b, xs, hash), p, hash)
  {
    assert (xs + [p])[..|xs|] == xs;
    assert forall j :: 0 <= j < |xs| ==> xs[j] == (xs + [p])[j];
  }

  /** Resizing neither loses nor duplicates a pair. */
  lemma {:induction false} InsertAllMultiset<K, V>(b: Buckets<K, V>, xs: Chain<K, V>, hash: K -> int)
    requires |b| > 0 && HashesNonNegative(xs, hash)
    ensures multiset(Flatten(InsertAll(b, xs, hash))) == multiset(Flatten(b)) + multiset(xs)
  {
    if xs != [] {
      var front := xs[..|xs| - 1];
      var p := xs[|xs| - 1];
      assert HashesNonNegative(front, hash);
      var r := InsertAll(b, front, hash);
      InsertAllMultiset(b, front, hash);
      InsertOneMultiset(r, p, hash);
      assert xs == front + [p];
      calc {
        multiset(Flatten(InsertAll(b, xs, hash)));
        multiset(Flatten(Insert(r, p, hash)));
        multiset(Flatten(r)) + multiset([p]);
        multiset(Flatten(b)) + multiset(front) + multiset([p]);
        multiset(Flatten(b)) + multiset(xs);
      }
    }
  }

  lemma InsertOneMultiset<K, V>(b: Buckets<K, V>, p: KeyValuePair<K, V>, hash: K -> int)
    requires |b| > 0 && hash(p.key) >= 0
    ensures multiset(Flatten(Insert(b, p, hash))) == multiset(Flatten(b)) + multiset([p])
  {
    FlattenPrepend(b, IndexFor(hash(p.key), |b|), p);
  }

  /** A pair is in bucket `j` after inserting `xs` iff it was there before or
      it comes from `xs` and its key hashes to `j`. */
  lemma {:induction false} InsertAllMember<K, V>(b: Buckets<K, V>, xs: Chain<K, V>, hash: K -> int, j: nat, p: KeyValuePair<K, V>)
    requires |b| > 0 && HashesNonNegative(xs, hash) && j < |b|
    ensures p in InsertAll(b, xs, hash)[j] <==>
      p in b[j] || (p in xs && IndexFor(hash(p.key), |b|) == j)
  {
    if xs != [] {
      var front := xs[..|xs| - 1];
      var q := xs[|xs| - 1];
      assert HashesNonNegative(front, hash);
      InsertAllMember(b, front, hash, j, p);
      assert xs == front + [q];
    }
  }

  /** Pairs placed by `InsertAll` into an empty table sit in their buckets. */
  lemma InsertAllPlaced<K, V>(n: nat, xs: Chain<K, V>, hash: K -> int)
    requires n > 0 && HashesNonNegative(xs, hash)
    ensures Placed(InsertAll(EmptyBuckets(n), xs, hash), hash)
  {
    var r: Buckets<K, V> := InsertAll(EmptyBuckets(n), xs, hash);
    forall i, j | 0 <= i < |r| && 0 <= j < |r[i]|
      ensures hash(r[i][j].key) >= 0 && IndexFor(hash(r[i][j].key), |r|) == i
    {
      InsertAllMember(EmptyBuckets(n), xs, hash, i, r[i][j]);
      var t :| 0 <= t < |xs| && xs[t] == r[i][j];
    }
  }

  /** Inserting a sequence of pairs with distinct keys into an empty table
      gives chains with distinct keys. */
  lemma {:induction false} InsertAllDistinct<K, V>(n: nat, xs: Chain<K, V>, hash: K -> int)
    requires n > 0 && HashesNonNegative(xs, hash) && DistinctKeys(xs)
    ensures AllDistinct(InsertAll(EmptyBuckets(n), xs, hash))
  {
    if xs != [] {
      var front := xs[..|xs| - 1];
      var p := xs[|xs| - 1];
      assert HashesNonNegative(front, hash);
      assert DistinctKeys(front);
      InsertAllDistinct(n, front, hash);
      var r: Buckets<K, V> := InsertAll(EmptyBuckets(n), front, hash);
      var i := IndexFor(hash(p.key), n);
      forall t | 0 <= t < |r[i]|
        ensures r[i][t].key != p.key
      {
        InsertAllMember(EmptyBuckets(n), front, hash, i, r[i][t]);
        var u :| 0 <= u < |front| && front[u] == r[i][t];
        assert xs[u] == front[u];
      }
      var c := [p] + r[i];
      forall a, d | 0 <= a < d < |c|
        ensures c[a].key != c[d].key
      {
        if a > 0 {
          assert c[a] == r[i][a - 1] && c[d] == r[i][d - 1];
        } else {
          assert c[d] == r[i][d - 1];
        }
      }
    }
  }

  /** In a placed table with distinct chains, the concatenation has distinct keys:
      equal keys hash to the same chain. */
  lemma FlattenDistinct<K, V>(b: Buckets<K, V>, hash: K -> int)
    requires Placed(b, hash) && AllDistinct(b)
    ensures DistinctKeys(Flatten(b))
  {
    FlattenPrefixDistinct(b, hash, |b|);
    assert b[..|b|] == b;
  }

  /** The concatenation of the first `m` buckets of a placed table has
      distinct keys. */
  lemma {:induction false} FlattenPrefixDistinct<K, V>(b: Buckets<K, V>, hash: K -> int, m: nat)
    requires Placed(b, hash) && AllDistinct(b) && m <= |b|
    ensures DistinctKeys(Flatten(b[..m]))
  {
    if m > 0 {
      FlattenPrefixDistinct(b, hash, m - 1);
      var pre := b[..m];
      assert pre[..m - 1] == b[..m - 1];
      var f := Flatten(b[..m - 1]);
      var c := b[m - 1];
      assert Flatten(pre) == f + c;
      forall x, y | 0 <= x < |f| && 0 <= y < |c|
        ensures f[x].key != c[y].key
      {
        FlattenMember(b[..m - 1], f[x]);
        var i :| 0 <= i < m - 1 && f[x] in b[..m - 1][i];
        assert f[x] in b[i];
        var t :| 0 <= t < |b[i]| && b[i][t] == f[x];
        assert IndexFor(hash(f[x].key), |b|) == i;
        assert IndexFor(hash(c[y].key), |b|) == m - 1;
      }
      var g := f + c;
      forall x, y | 0 <= x < y < |g|
        ensures g[x].key != g[y].key
      {
        if y < |f| {
          assert g[x] == f[x] && g[y] == f[y];
        } else if x >= |f| {
          assert g[x] == c[x - |f|] && g[y] == c[y - |f|];
        } else {
          assert g[x] == f[x] && g[y] == c[y - |f|];
        }
      }
    }
  }

  /** The chains `b` hold exactly the mapping `m`: every pair sits in its
      bucket, no chain repeats a key, every pair is an entry of `m` and every
      entry of `m` is a pair in the chain of its key. */
  ghost predicate Represents<K, V>(b: Buckets<K, V>, m: map<K, V>, hash: K -> int)
  {
    Placed(b, hash) && AllDistinct(b) &&
    (forall i, j :: 0 <= i < |b| && 0 <= j < |b[i]| ==>
       b[i][j].key in m && m[b[i][j].key] == b[i][j].value) &&
    (forall k {:trigger Keyed(m, k)} :: k in m ==> hash(k) >= 0 && KeyValuePair(k, m[k]) in b[IndexFor(hash(k), |b|)])
  }

  /** `k` is a key of `m`. Named apart so that where a key of the mapping
      sits in the chains is looked up only where a proof asks for it. */
  ghost predicate Keyed<K, V>(m: map<K, V>, k: K)
  {
    k in m
  }
}

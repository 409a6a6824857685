/**
 The chained hash map with resizing.  A bucket is the sequence of the entries
 of its chain; the bucket array and the counters are updated in place and tied
 to the mathematical map they stand for.
 */
module Hashmaps {
  import opened Bits
  import opened Wrappers

  datatype Entry<K, V> = Entry(key: K, hash: i32, value: V)

  /** The chain of each bucket. */
  type Buckets<K, V> = seq<seq<Entry<K, V>>>

  /** The callbacks given to hashmapCreate. */
  datatype Hasher<!K> = Hasher(hash: K -> i32, equals: (K, K) -> bool)

  /** `equals` is reflexive and symmetric, and equal keys hash alike; see also EquivalentIsUnique. */
  ghost predicate GoodHasher<K(!new)>(h: Hasher<K>) {
    && (forall k :: h.equals(k, k))
    && (forall a, b :: h.equals(a, b) ==> h.equals(b, a))
    && (forall a, b :: h.equals(a, b) ==> h.hash(a) == h.hash(b))
  }

  /** The secondary hash, on 32-bit words with logical right shifts. */
  function Spread(h0: bv32): bv32 {
    var h1 := h0 + !(h0 << 9);
    var h2 := h1 ^ (h1 >> 14);
    var h3 := h2 + (h2 << 4);
    h3 ^ (h3 >> 10)
  }

  function SpreadInt(hash: i32): i32 {
    I32(Spread(U32(hash) as bv32) as int)
  }

  function HashKey<K>(h: Hasher<K>, key: K): i32 {
    SpreadInt(h.hash(key))
  }

  /** (size_t) hash & (bucketCount - 1) */
  function CalculateIndex(bucketCount: nat, hash: i32): nat
    requires bucketCount > 0
  {
    And(U64(hash), bucketCount - 1)
  }

  predicate EqualKeys<K(==)>(keyA: K, hashA: i32, keyB: K, hashB: i32, h: Hasher<K>) {
    if keyA == keyB then true else if hashA != hashB then false else h.equals(keyA, keyB)
  }

  ghost predicate IsPow2(n: nat) {
    exists k: nat :: n == Pow2(k)
  }

  /** With a power of two for count, the mask takes the hash modulo the count. */
  lemma IndexIsModulo(bucketCount: nat, hash: i32)
    requires IsPow2(bucketCount)
    ensures bucketCount > 0 && CalculateIndex(bucketCount, hash) == U64(hash) % bucketCount < bucketCount
  {
    var k: nat :| bucketCount == Pow2(k);
    AndMask(U64(hash), k);
  }

  // ------------------------------------------------------------------------
  // Buckets
  // ------------------------------------------------------------------------

  ghost predicate Placed<K, V>(bs: Buckets<K, V>, h: Hasher<K>)
    requires |bs| > 0
  {
    forall i, e | 0 <= i < |bs| && e in bs[i] :: CalculateIndex(|bs|, e.hash) == i && e.hash == HashKey(h, e.key)
  }

  ghost predicate Unique<K, V>(chain: seq<Entry<K, V>>, h: Hasher<K>) {
    forall j, l | 0 <= j < l < |chain| :: !h.equals(chain[j].key, chain[l].key)
  }

  ghost predicate Good<K, V>(bs: Buckets<K, V>, h: Hasher<K>) {
    && IsPow2(|bs|) && |bs| > 0
    && Placed(bs, h)
    && (forall i | 0 <= i < |bs| :: Unique(bs[i], h))
  }

  /** The entry is stored, in the one bucket where it may be. */
  ghost predicate Has<K, V>(bs: Buckets<K, V>, e: Entry<K, V>) {
    |bs| > 0 && CalculateIndex(|bs|, e.hash) < |bs| && e in bs[CalculateIndex(|bs|, e.hash)]
  }

  function Total<K, V>(bs: Buckets<K, V>): nat {
    if bs == [] then 0 else |bs[0]| + Total(bs[1..])
  }

  /** The buckets hold exactly the pairs of `m`. */
  ghost predicate Represents<K(!new), V(!new)>(bs: Buckets<K, V>, m: map<K, V>) {
    && (forall e :: Has(bs, e) ==> e.key in m && m[e.key] == e.value)
    && (forall k <- m :: exists e :: Has(bs, e) && e.key == k)
  }

  lemma {:induction false} TotalUpdate<K, V>(bs: Buckets<K, V>, i: nat, chain: seq<Entry<K, V>>)
    requires i < |bs|
    ensures Total(bs[i := chain]) == Total(bs) - |bs[i]| + |chain|
  {
    if i > 0 {
      assert bs[i := chain][1..] == bs[1..][i - 1 := chain];
      TotalUpdate(bs[1..], i - 1, chain);
    } else {
      assert bs[i := chain][1..] == bs[1..];
    }
  }

  /** Two different places never hold equal keys. */
  lemma NoEqualKeys<K(!new), V>(bs: Buckets<K, V>, h: Hasher<K>, i: nat, a: nat, j: nat, b: nat)
    requires GoodHasher(h) && Good(bs, h) && i < |bs| && j < |bs| && a < |bs[i]| && b < |bs[j]|
    requires h.equals(bs[i][a].key, bs[j][b].key)
    ensures i == j && a == b
  {
    SameBucket(bs, h, i, bs[i][a], j, bs[j][b]);
    assert Unique(bs[i], h);
    assert h.equals(bs[j][b].key, bs[i][a].key);
  }

  lemma SameBucket<K(!new), V>(bs: Buckets<K, V>, h: Hasher<K>, i: nat, x: Entry<K, V>, j: nat, y: Entry<K, V>)
    requires GoodHasher(h) && |bs| > 0 && Placed(bs, h) && i < |bs| && j < |bs| && x in bs[i] && y in bs[j]
    requires h.equals(x.key, y.key)
    ensures i == j
  {
    assert h.hash(x.key) == h.hash(y.key);
    assert x.hash == y.hash;
  }

  // ------------------------------------------------------------------------
  // Rehashing
  // ------------------------------------------------------------------------

  /** An entry moved to a new array goes to the front of its chain. */
  function Push<K, V>(bs: Buckets<K, V>, e: Entry<K, V>): (r: Buckets<K, V>)
    requires |bs| > 0
    ensures |r| == |bs|
  {
    var i := CalculateIndex(|bs|, e.hash);
    if i < |bs| then bs[i := [e] + bs[i]] else bs
  }

  function PushChain<K, V>(bs: Buckets<K, V>, chain: seq<Entry<K, V>>): (r: Buckets<K, V>)
    requires |bs| > 0
    ensures |r| == |bs|
    decreases |chain|
  {
    if chain == [] then bs else PushChain(Push(bs, chain[0]), chain[1..])
  }

  function PushBuckets<K, V>(bs: Buckets<K, V>, src: Buckets<K, V>, i: nat): (r: Buckets<K, V>)
    requires |bs| > 0 && i <= |src|
    ensures |r| == |bs|
    decreases |src| - i
  {
    if i == |src| then bs else PushBuckets(PushChain(bs, src[i]), src, i + 1)
  }

  lemma PushKeepsGood<K(!new), V(!new)>(bs: Buckets<K, V>, h: Hasher<K>, e: Entry<K, V>)
    requires GoodHasher(h) && Good(bs, h) && e.hash == HashKey(h, e.key)
    requires forall x :: Has(bs, x) ==> !h.equals(e.key, x.key)
    ensures Good(Push(bs, e), h) && Total(Push(bs, e)) == Total(bs) + 1
    ensures forall x :: Has(Push(bs, e), x) <==> x == e || Has(bs, x)
  {
    var i := CalculateIndex(|bs|, e.hash);
    IndexIsModulo(|bs|, e.hash);
    forall j | 0 <= j < |bs[i]|
      ensures !h.equals(e.key, bs[i][j].key)
    {
      assert bs[i][j] in bs[i];
      assert Has(bs, bs[i][j]);
    }
    assert Unique(bs[i], h);
    ChainKeepsGood(bs, h, i, [e] + bs[i]);
  }

  lemma {:induction false} PushChainKeepsGood<K(!new), V(!new)>(bs: Buckets<K, V>, h: Hasher<K>, chain: seq<Entry<K, V>>)
    requires GoodHasher(h) && Good(bs, h) && Unique(chain, h)
    requires forall e <- chain :: e.hash == HashKey(h, e.key)
    requires forall e, x | e in chain && Has(bs, x) :: !h.equals(e.key, x.key)
    ensures
      var r := PushChain(bs, chain);
      && Good(r, h) && Total(r) == Total(bs) + |chain|
      && forall x :: Has(r, x) <==> x in chain || Has(bs, x)
    decreases |chain|
  {
    if chain != [] {
      var e := chain[0];
      var bs' := Push(bs, e);
      PushKeepsGood(bs, h, e);
      forall c, x | c in chain[1..] && Has(bs', x)
        ensures !h.equals(c.key, x.key)
      {
        if x == e {
          LaterNotEqual(chain, h, c);
        }
      }
      UniqueTail(chain, h);
      PushChainKeepsGood(bs', h, chain[1..]);
      assert chain == [e] + chain[1..];
    }
  }

  lemma LaterNotEqual<K(!new), V>(chain: seq<Entry<K, V>>, h: Hasher<K>, c: Entry<K, V>)
    requires GoodHasher(h) && Unique(chain, h) && chain != [] && c in chain[1..]
    ensures !h.equals(c.key, chain[0].key)
  {
    var j :| 0 <= j < |chain[1..]| && chain[1..][j] == c;
    assert !h.equals(chain[0].key, chain[j + 1].key);
  }

  lemma UniqueTail<K(!new), V>(chain: seq<Entry<K, V>>, h: Hasher<K>)
    requires Unique(chain, h) && chain != []
    ensures Unique(chain[1..], h)
  {
    forall j, l | 0 <= j < l < |chain[1..]|
      ensures !h.equals(chain[1..][j].key, chain[1..][l].key)
    {
      assert chain[1..][j] == chain[j + 1] && chain[1..][l] == chain[l + 1];
    }
  }

  lemma {:induction false} PushBucketsKeepsGood<K(!new), V(!new)>(
      bs: Buckets<K, V>, h: Hasher<K>, src: Buckets<K, V>, i: nat)
    requires GoodHasher(h) && Good(bs, h) && Good(src, h) && i <= |src|
    requires forall x :: Has(bs, x) ==> Has(src, x) && CalculateIndex(|src|, x.hash) < i
    ensures
      var r := PushBuckets(bs, src, i);
      && Good(r, h) && Total(r) == Total(bs) + Total(src[i..])
      && forall x :: Has(r, x) <==> Has(bs, x) || (Has(src, x) && CalculateIndex(|src|, x.hash) >= i)
    decreases |src| - i
  {
    if i < |src| {
      assert src[i..][0] == src[i] && src[i..][1..] == src[i + 1..];
      forall e, x | e in src[i] && Has(bs, x)
        ensures !h.equals(e.key, x.key)
      {
      }
      PushChainKeepsGood(bs, h, src[i]);
      PushBucketsKeepsGood(PushChain(bs, src[i]), h, src, i + 1);
    }
  }

  /** Rehashing into an empty array keeps every entry and loses nothing of the map. */
  lemma RehashKeepsEntries<K(!new), V(!new)>(empty: Buckets<K, V>, src: Buckets<K, V>, h: Hasher<K>, m: map<K, V>)
    requires GoodHasher(h) && Good(src, h) && IsPow2(|empty|) && |empty| > 0
    requires forall i | 0 <= i < |empty| :: empty[i] == []
    ensures
      var r := PushBuckets(empty, src, 0);
      && Good(r, h) && Total(r) == Total(src)
      && (forall x :: Has(r, x) <==> Has(src, x))
      && (Represents(src, m) ==> Represents(r, m))
  {
    TotalEmpty(empty);
    assert src[0..] == src;
    PushBucketsKeepsGood(empty, h, src, 0);
    var r := PushBuckets(empty, src, 0);
    if Represents(src, m) {
      forall k <- m
        ensures exists e :: Has(r, e) && e.key == k
      {
        var e :| Has(src, e) && e.key == k;
        assert Has(r, e);
      }
    }
  }

  lemma {:induction false} TotalEmpty<K, V>(bs: Buckets<K, V>)
    requires forall i | 0 <= i < |bs| :: bs[i] == []
    ensures Total(bs) == 0
  {
    if bs != [] {
      TotalEmpty(bs[1..]);
    }
  }

  // ------------------------------------------------------------------------
  // One chain
  // ------------------------------------------------------------------------

  /** The position of the entry for `key`, searching from `j`; |chain| when there is none. */
  function Search<K(==), V>(chain: seq<Entry<K, V>>, h: Hasher<K>, key: K, j: nat): (p: nat)
    requires j <= |chain|
    ensures j <= p <= |chain|
    decreases |chain| - j
  {
    if j == |chain| || EqualKeys(chain[j].key, chain[j].hash, key, HashKey(h, key), h) then j
    else Search(chain, h, key, j + 1)
  }

  /** Among properly hashed entries the shortcuts of equalKeys decide `equals`. */
  lemma EqualKeysIsEquals<K(!new), V>(e: Entry<K, V>, key: K, h: Hasher<K>)
    requires GoodHasher(h) && e.hash == HashKey(h, e.key)
    ensures EqualKeys(e.key, e.hash, key, HashKey(h, key), h) <==> h.equals(e.key, key)
  {
  }

  lemma {:induction false} SearchFinds<K(!new), V>(chain: seq<Entry<K, V>>, h: Hasher<K>, key: K, j: nat)
    requires GoodHasher(h) && j <= |chain| && forall e <- chain :: e.hash == HashKey(h, e.key)
    ensures
      var p := Search(chain, h, key, j);
      && (forall l | j <= l < p :: !h.equals(chain[l].key, key))
      && (p < |chain| ==> h.equals(chain[p].key, key))
    decreases |chain| - j
  {
    hide GoodHasher, HashKey, EqualKeys;
    if j < |chain| {
      EqualKeysIsEquals(chain[j], key, h);
      if !h.equals(chain[j].key, key) {
        SearchFinds(chain, h, key, j + 1);
      }
    }
  }

  function BucketOf<K, V>(bs: Buckets<K, V>, h: Hasher<K>, key: K): (i: nat)
    requires |bs| > 0
    ensures i < |bs|
  {
    var i := CalculateIndex(|bs|, HashKey(h, key));
    if i < |bs| then i else 0
  }

  /** A stored key equal to `key`, if the map has one. */
  ghost predicate Equivalent<K(!new), V>(m: map<K, V>, h: Hasher<K>, key: K, stored: K) {
    stored in m && h.equals(stored, key)
  }

  /** The chain of a key decides whether the map has an equal key. */
  lemma LookUp<K(!new), V(!new)>(bs: Buckets<K, V>, h: Hasher<K>, m: map<K, V>, key: K)
    requires GoodHasher(h) && Good(bs, h) && Represents(bs, m)
    ensures CalculateIndex(|bs|, HashKey(h, key)) == BucketOf(bs, h, key)
    ensures
      var chain := bs[BucketOf(bs, h, key)]; var p := Search(chain, h, key, 0);
      if p < |chain| then Equivalent(m, h, key, chain[p].key) && m[chain[p].key] == chain[p].value
      else forall k :: !Equivalent(m, h, key, k)
  {
    IndexIsModulo(|bs|, HashKey(h, key));
    var i := BucketOf(bs, h, key);
    var chain := bs[i];
    forall e | e in chain
      ensures e.hash == HashKey(h, e.key) && Has(bs, e)
    {
    }
    SearchFinds(chain, h, key, 0);
    if Search(chain, h, key, 0) == |chain| {
      forall k | k in m
        ensures !h.equals(k, key)
      {
        var e :| Has(bs, e) && e.key == k;
        assert h.equals(k, key) ==> e.hash == HashKey(h, key);
      }
    }
  }

  /** Equal keys are stored at most once. */
  lemma HasUnique<K(!new), V(!new)>(bs: Buckets<K, V>, h: Hasher<K>, x: Entry<K, V>, y: Entry<K, V>)
    requires GoodHasher(h) && Good(bs, h) && Has(bs, x) && Has(bs, y) && h.equals(x.key, y.key)
    ensures x == y
  {
    var i, j := CalculateIndex(|bs|, x.hash), CalculateIndex(|bs|, y.hash);
    var a :| 0 <= a < |bs[i]| && bs[i][a] == x;
    var b :| 0 <= b < |bs[j]| && bs[j][b] == y;
    NoEqualKeys(bs, h, i, a, j, b);
  }

  /** One chain is exchanged for another of properly placed entries. */
  lemma ChainKeepsGood<K(!new), V(!new)>(bs: Buckets<K, V>, h: Hasher<K>, i: nat, chain: seq<Entry<K, V>>)
    requires Good(bs, h) && i < |bs| && Unique(chain, h)
    requires forall x: Entry<K, V> | x in chain :: CalculateIndex(|bs|, x.hash) == i && x.hash == HashKey(h, x.key)
    ensures Good(bs[i := chain], h) && Total(bs[i := chain]) == Total(bs) - |bs[i]| + |chain|
    ensures forall x: Entry<K, V> :: Has(bs[i := chain], x) <==>
              if CalculateIndex(|bs|, x.hash) == i then x in chain else Has(bs, x)
  {
    TotalUpdate(bs, i, chain);
  }

  lemma AppendKeepsGood<K(!new), V(!new)>(bs: Buckets<K, V>, h: Hasher<K>, m: map<K, V>, e: Entry<K, V>)
    requires GoodHasher(h) && Good(bs, h) && Represents(bs, m) && e.hash == HashKey(h, e.key)
    requires forall k :: !Equivalent(m, h, e.key, k)
    ensures
      var i := BucketOf(bs, h, e.key); var r := bs[i := bs[i] + [e]];
      Good(r, h) && Represents(r, m[e.key := e.value]) && Total(r) == Total(bs) + 1
  {
    var i := BucketOf(bs, h, e.key);
    IndexIsModulo(|bs|, e.hash);
    var chain := bs[i] + [e];
    forall j | 0 <= j < |bs[i]|
      ensures !h.equals(bs[i][j].key, e.key)
    {
      assert bs[i][j] in bs[i] && Has(bs, bs[i][j]);
      assert !Equivalent(m, h, e.key, bs[i][j].key);
    }
    assert Unique(bs[i], h);
    ChainKeepsGood(bs, h, i, chain);
    var r := bs[i := chain];
    assert forall x :: Has(r, x) <==> x == e || Has(bs, x);
    assert e.key !in m by {
      assert !Equivalent(m, h, e.key, e.key);
    }
    RepresentsMore(bs, r, m, e);
  }

  lemma RepresentsMore<K(!new), V(!new)>(bs: Buckets<K, V>, r: Buckets<K, V>, m: map<K, V>, e: Entry<K, V>)
    requires Represents(bs, m) && e.key !in m
    requires forall x :: Has(r, x) <==> x == e || Has(bs, x)
    ensures Represents(r, m[e.key := e.value])
  {
    var m' := m[e.key := e.value];
    forall k <- m'
      ensures exists x :: Has(r, x) && x.key == k
    {
      if k == e.key {
        assert Has(r, e);
      } else {
        var x :| Has(bs, x) && x.key == k;
        assert Has(r, x);
      }
    }
  }

  function WithoutEntry<K, V>(chain: seq<Entry<K, V>>, p: nat): seq<Entry<K, V>>
    requires p < |chain|
  {
    chain[..p] + chain[p + 1..]
  }

  lemma RemoveKeepsGood<K(!new), V(!new)>(bs: Buckets<K, V>, h: Hasher<K>, m: map<K, V>, i: nat, p: nat)
    requires GoodHasher(h) && Good(bs, h) && Represents(bs, m) && i < |bs| && p < |bs[i]|
    ensures
      var e := bs[i][p]; var r := bs[i := WithoutEntry(bs[i], p)];
      Good(r, h) && Represents(r, m - {e.key}) && Total(r) == Total(bs) - 1
      && Has(bs, e) && (forall x :: Has(r, x) <==> Has(bs, x) && x != e)
  {
    WithoutIsUnique(bs[i], h, p);
    ShorterChainKeepsGood(bs, h, m, i, WithoutEntry(bs[i], p), bs[i][p]);
  }

  lemma ShorterChainKeepsGood<K(!new), V(!new)>(bs: Buckets<K, V>, h: Hasher<K>, m: map<K, V>, i: nat,
                                                 rest: seq<Entry<K, V>>, e: Entry<K, V>)
    requires GoodHasher(h) && Good(bs, h) && Represents(bs, m) && i < |bs| && e in bs[i]
    requires Unique(rest, h) && |rest| == |bs[i]| - 1
    requires forall x :: x in rest <==> x in bs[i] && x != e
    ensures
      var r := bs[i := rest];
      Good(r, h) && Represents(r, m - {e.key}) && Total(r) == Total(bs) - 1
      && Has(bs, e) && (forall x :: Has(r, x) <==> Has(bs, x) && x != e)
  {
    var r := bs[i := rest];
    ChainKeepsGood(bs, h, i, rest);
    ExchangedHas(bs, r, h, i, e);
    RepresentsLess(bs, h, r, m, e);
  }

  /** An entry left out of its chain is the only one lost. */
  lemma ExchangedHas<K(!new), V(!new)>(bs: Buckets<K, V>, r: Buckets<K, V>, h: Hasher<K>, i: nat, e: Entry<K, V>)
    requires Good(bs, h) && i < |bs| && e in bs[i] && |r| == |bs|
    requires forall x: Entry<K, V> :: Has(r, x) <==>
               if CalculateIndex(|bs|, x.hash) == i then x in r[i] else Has(bs, x)
    requires forall x: Entry<K, V> :: x in r[i] <==> x in bs[i] && x != e
    ensures Has(bs, e) && forall x: Entry<K, V> :: Has(r, x) <==> Has(bs, x) && x != e
  {
    assert CalculateIndex(|bs|, e.hash) == i;
  }

  lemma WithoutIsUnique<K(!new), V>(chain: seq<Entry<K, V>>, h: Hasher<K>, p: nat)
    requires GoodHasher(h) && Unique(chain, h) && p < |chain|
    ensures Unique(WithoutEntry(chain, p), h) && |WithoutEntry(chain, p)| == |chain| - 1
    ensures forall x :: x in WithoutEntry(chain, p) <==> x in chain && x != chain[p]
  {
    var rest := WithoutEntry(chain, p);
    forall j | 0 <= j < |rest|
      ensures rest[j] == (if j < p then chain[j] else chain[j + 1]) && rest[j] != chain[p]
    {
    }
    assert chain == chain[..p] + [chain[p]] + chain[p + 1..];
  }

  lemma RepresentsLess<K(!new), V(!new)>(bs: Buckets<K, V>, h: Hasher<K>, r: Buckets<K, V>, m: map<K, V>,
                                          e: Entry<K, V>)
    requires GoodHasher(h) && Good(bs, h) && Represents(bs, m) && Has(bs, e)
    requires forall x :: Has(r, x) <==> Has(bs, x) && x != e
    ensures Represents(r, m - {e.key})
  {
    forall x | Has(r, x)
      ensures x.key != e.key
    {
      if x.key == e.key {
        HasUnique(bs, h, x, e);
      }
    }
    forall k <- m - {e.key}
      ensures exists x :: Has(r, x) && x.key == k
    {
      var x :| Has(bs, x) && x.key == k;
      assert Has(r, x);
    }
  }

  /** When `equals` is transitive as well, a key is equal to at most one stored key. */
  lemma EquivalentIsUnique<K(!new), V(!new)>(bs: Buckets<K, V>, h: Hasher<K>, m: map<K, V>, key: K, k1: K, k2: K)
    requires GoodHasher(h) && Good(bs, h) && Represents(bs, m)
    requires forall a, b, c :: h.equals(a, b) && h.equals(b, c) ==> h.equals(a, c)
    requires Equivalent(m, h, key, k1) && Equivalent(m, h, key, k2)
    ensures k1 == k2
  {
    var x :| Has(bs, x) && x.key == k1;
    var y :| Has(bs, y) && y.key == k2;
    assert h.equals(key, k2);
    assert h.equals(k1, k2);
    HasUnique(bs, h, x, y);
  }

  /** Replacing the value of a stored entry. */
  lemma ReplaceKeepsGood<K(!new), V(!new)>(bs: Buckets<K, V>, h: Hasher<K>, m: map<K, V>, i: nat, p: nat, value: V)
    requires GoodHasher(h) && Good(bs, h) && Represents(bs, m) && i < |bs| && p < |bs[i]|
    ensures
      var e := bs[i][p]; var r := bs[i := bs[i][p := Entry(e.key, e.hash, value)]];
      Good(r, h) && Represents(r, m[e.key := value]) && Total(r) == Total(bs)
  {
    var e := bs[i][p];
    var e' := Entry(e.key, e.hash, value);
    var chain := bs[i][p := e'];
    assert e in bs[i] && Unique(bs[i], h);
    ReplaceInChain(bs[i], h, p, e');
    ChainKeepsGood(bs, h, i, chain);
    var r := bs[i := chain];
    ReplacedHas(bs, r, h, i, e, e');
    RepresentsReplaced(bs, h, r, m, e, e');
  }

  lemma ReplacedHas<K(!new), V(!new)>(bs: Buckets<K, V>, r: Buckets<K, V>, h: Hasher<K>, i: nat,
                                       e: Entry<K, V>, e': Entry<K, V>)
    requires Good(bs, h) && i < |bs| && e in bs[i] && |r| == |bs| && e'.hash == e.hash
    requires forall x: Entry<K, V> :: Has(r, x) <==>
               if CalculateIndex(|bs|, x.hash) == i then x in r[i] else Has(bs, x)
    requires forall x: Entry<K, V> :: x in r[i] <==> x == e' || (x in bs[i] && x != e)
    ensures Has(bs, e) && forall x: Entry<K, V> :: Has(r, x) <==> x == e' || (Has(bs, x) && x != e)
  {
    assert CalculateIndex(|bs|, e.hash) == i;
  }

  lemma RepresentsReplaced<K(!new), V(!new)>(bs: Buckets<K, V>, h: Hasher<K>, r: Buckets<K, V>, m: map<K, V>,
                                              e: Entry<K, V>, e': Entry<K, V>)
    requires GoodHasher(h) && Good(bs, h) && Represents(bs, m) && Has(bs, e) && e'.key == e.key
    requires forall x: Entry<K, V> :: Has(r, x) <==> x == e' || (Has(bs, x) && x != e)
    ensures Represents(r, m[e.key := e'.value])
  {
    forall x | Has(r, x)
      ensures x == e' || x.key != e.key
    {
      if x != e' && x.key == e.key {
        HasUnique(bs, h, x, e);
      }
    }
    var m' := m[e.key := e'.value];
    forall k <- m'
      ensures exists x :: Has(r, x) && x.key == k
    {
      if k == e.key {
        assert Has(r, e');
      } else {
        var x :| Has(bs, x) && x.key == k;
        assert Has(r, x);
      }
    }
  }

  lemma ReplaceInChain<K(!new), V>(chain: seq<Entry<K, V>>, h: Hasher<K>, p: nat, e: Entry<K, V>)
    requires GoodHasher(h) && Unique(chain, h) && p < |chain| && e.key == chain[p].key
    ensures Unique(chain[p := e], h)
    ensures forall x :: x in chain[p := e] <==> x == e || (x in chain && x != chain[p])
  {
    forall j | 0 <= j < |chain| && j != p
      ensures chain[j] != chain[p]
    {
    }
    forall x | x in chain && x != chain[p]
      ensures x in chain[p := e]
    {
      var j :| 0 <= j < |chain| && chain[j] == x;
      assert chain[p := e][j] == x;
    }
    assert chain[p := e][p] == e;
  }

  /** 0.75 load factor. */
  function LoadLimit(bucketCount: nat): nat { bucketCount * 3 / 4 }

  /** Within the limit means at most three entries for every four buckets. */
  lemma LoadIsThreeQuarters(size: nat, bucketCount: nat)
    ensures size <= LoadLimit(bucketCount) <==> 4 * size <= 3 * bucketCount
  {
  }

  /** Doubling makes room for one more entry than the limit that was exceeded. */
  lemma DoublingMakesRoom(bucketCount: nat)
    requires bucketCount > 0
    ensures LoadLimit(2 * bucketCount) >= LoadLimit(bucketCount) + 1
  {
  }

  /** The buckets, with their entry count, stand for the map. */
  ghost predicate Stored<K(!new), V(!new)>(bs: Buckets<K, V>, h: Hasher<K>, m: map<K, V>, size: nat) {
    Good(bs, h) && Represents(bs, m) && size == |m| == Total(bs)
  }

  lemma AppendStored<K(!new), V(!new)>(bs: Buckets<K, V>, h: Hasher<K>, m: map<K, V>, size: nat, e: Entry<K, V>)
    requires GoodHasher(h) && Stored(bs, h, m, size) && e.hash == HashKey(h, e.key)
    requires forall k :: !Equivalent(m, h, e.key, k)
    ensures
      var i := BucketOf(bs, h, e.key);
      Stored(bs[i := bs[i] + [e]], h, m[e.key := e.value], size + 1)
  {
    AppendKeepsGood(bs, h, m, e);
    assert !Equivalent(m, h, e.key, e.key);
  }

  lemma ReplaceStored<K(!new), V(!new)>(bs: Buckets<K, V>, h: Hasher<K>, m: map<K, V>, size: nat, i: nat, p: nat, value: V)
    requires GoodHasher(h) && Stored(bs, h, m, size) && i < |bs| && p < |bs[i]|
    ensures
      var e := bs[i][p];
      e.key in m && Stored(bs[i := bs[i][p := Entry(e.key, e.hash, value)]], h, m[e.key := value], size)
  {
    ReplaceKeepsGood(bs, h, m, i, p, value);
    assert bs[i][p] in bs[i] && Has(bs, bs[i][p]);
  }

  lemma RemoveStored<K(!new), V(!new)>(bs: Buckets<K, V>, h: Hasher<K>, m: map<K, V>, size: nat, i: nat, p: nat)
    requires GoodHasher(h) && Stored(bs, h, m, size) && i < |bs| && p < |bs[i]|
    ensures size > 0 && Stored(bs[i := WithoutEntry(bs[i], p)], h, m - {bs[i][p].key}, size - 1)
  {
    RemoveKeepsGood(bs, h, m, i, p);
    assert bs[i][p].key in m;
    OneKeyLess(m, bs[i][p].key);
  }

  lemma OneKeyLess<K, V>(m: map<K, V>, k: K)
    requires k in m
    ensures |m - {k}| == |m| - 1
  {
    assert (m - {k}).Keys == m.Keys - {k};
  }

  lemma RehashStored<K(!new), V(!new)>(empty: Buckets<K, V>, src: Buckets<K, V>, h: Hasher<K>, m: map<K, V>, size: nat)
    requires GoodHasher(h) && Stored(src, h, m, size) && |empty| == 2 * |src|
    requires forall i | 0 <= i < |empty| :: empty[i] == []
    ensures IsPow2(|empty|) && Stored(PushBuckets(empty, src, 0), h, m, size)
  {
    DoubledIsPow2(|src|);
    RehashKeepsEntries(empty, src, h, m);
  }

  lemma DoubledIsPow2(n: nat)
    requires IsPow2(n)
    ensures IsPow2(2 * n)
  {
    var k: nat :| n == Pow2(k);
    assert 2 * n == Pow2(k + 1);
  }

  // ------------------------------------------------------------------------
  // Visiting
  // ------------------------------------------------------------------------

  /** The entries in the order of hashmapForEach. */
  function Flat<K, V>(bs: Buckets<K, V>): seq<Entry<K, V>> {
    if bs == [] then [] else bs[0] + Flat(bs[1..])
  }

  lemma {:induction false} FlatSnoc<K, V>(bs: Buckets<K, V>, chain: seq<Entry<K, V>>)
    ensures Flat(bs + [chain]) == Flat(bs) + chain
  {
    if bs == [] {
      assert Flat([chain][1..]) == [];
    } else {
      assert (bs + [chain])[1..] == bs[1..] + [chain];
      FlatSnoc(bs[1..], chain);
    }
  }

  lemma {:induction false} FlatMembers<K, V(!new)>(bs: Buckets<K, V>)
    ensures |Flat(bs)| == Total(bs)
    ensures forall e :: e in Flat(bs) <==> exists i :: 0 <= i < |bs| && e in bs[i]
  {
    if bs != [] {
      FlatMembers(bs[1..]);
      forall e | exists i :: 0 <= i < |bs| && e in bs[i]
        ensures e in Flat(bs)
      {
        var i :| 0 <= i < |bs| && e in bs[i];
        if i > 0 {
          assert bs[1..][i - 1] == bs[i];
        }
      }
    }
  }

  lemma FlatCons<K, V>(bs: Buckets<K, V>)
    requires bs != []
    ensures Flat(bs) == bs[0] + Flat(bs[1..])
  {
  }

  /** The entries a walk visits before its callback stops it, the last one included. */
  function Until<K, V>(flat: seq<Entry<K, V>>, goOn: Entry<K, V> -> bool): seq<Entry<K, V>> {
    if flat == [] then [] else [flat[0]] + if goOn(flat[0]) then Until(flat[1..], goOn) else []
  }

  lemma UntilCons<K, V>(chain: seq<Entry<K, V>>, rest: seq<Entry<K, V>>, goOn: Entry<K, V> -> bool)
    requires chain != []
    ensures Until(chain + rest, goOn) ==
              [chain[0]] + if goOn(chain[0]) then Until(chain[1..] + rest, goOn) else []
  {
    assert (chain + rest)[1..] == chain[1..] + rest;
  }

  lemma NothingVisited<K, V>(goOn: Entry<K, V> -> bool)
    ensures Flat<K, V>([]) == [] && Until([], goOn) == []
  {
  }

  /** A walk goes on at all entries but its last, and at that one only if it is the last of all. */
  lemma {:induction false} UntilIsPrefix<K, V>(flat: seq<Entry<K, V>>, goOn: Entry<K, V> -> bool)
    ensures Until(flat, goOn) <= flat
    ensures forall j | 0 <= j < |Until(flat, goOn)| - 1 :: goOn(Until(flat, goOn)[j])
    ensures (Until(flat, goOn) == [] || goOn(Until(flat, goOn)[|Until(flat, goOn)| - 1])) ==> Until(flat, goOn) == flat
  {
    if flat != [] {
      UntilIsPrefix(flat[1..], goOn);
      var rest := Until(flat[1..], goOn);
      if goOn(flat[0]) {
        assert Until(flat, goOn) == [flat[0]] + rest;
        assert rest != [] ==> Until(flat, goOn)[|rest|] == rest[|rest| - 1];
        assert flat == [flat[0]] + flat[1..];
      }
    }
  }

  /** Visiting a map's buckets meets each of its pairs exactly once. */
  lemma FlatEnumerates<K(!new), V(!new)>(bs: Buckets<K, V>, h: Hasher<K>, m: map<K, V>, size: nat)
    requires Stored(bs, h, m, size)
    ensures |Flat(bs)| == |m|
    ensures forall e <- Flat(bs) :: e.key in m && m[e.key] == e.value
    ensures forall k <- m :: exists e :: e in Flat(bs) && e.key == k
    ensures forall a, b | 0 <= a < b < |Flat(bs)| :: Flat(bs)[a].key != Flat(bs)[b].key
  {
    FlatIsHas(bs, h);
    FlatMembers(bs);
    FlatKeys(Flat(bs), m);
  }

  lemma FlatIsHas<K(!new), V(!new)>(bs: Buckets<K, V>, h: Hasher<K>)
    requires Good(bs, h)
    ensures forall e :: e in Flat(bs) <==> Has(bs, e)
  {
    FlatMembers(bs);
    forall e | e in Flat(bs)
      ensures Has(bs, e)
    {
      var i := InFlat(bs, e);
    }
  }

  lemma {:induction false} InFlat<K, V>(bs: Buckets<K, V>, e: Entry<K, V>) returns (i: nat)
    requires e in Flat(bs)
    ensures i < |bs| && e in bs[i]
  {
    if e in bs[0] {
      i := 0;
    } else {
      i := InFlat(bs[1..], e);
      i := i + 1;
    }
  }

  lemma FlatKeys<K(!new), V(!new)>(flat: seq<Entry<K, V>>, m: map<K, V>)
    requires |flat| == |m|
    requires forall e <- flat :: e.key in m
    requires forall k <- m :: exists e :: e in flat && e.key == k
    ensures forall a, b | 0 <= a < b < |flat| :: flat[a].key != flat[b].key
  {
    var keys := seq(|flat|, i requires 0 <= i < |flat| => flat[i].key);
    forall k | k in m
      ensures k in keys
    {
      var e :| e in flat && e.key == k;
      var i :| 0 <= i < |flat| && flat[i] == e;
      assert keys[i] == k;
    }
    assert (set k | k in keys) == m.Keys;
    DistinctBySize(keys);
    forall a, b | 0 <= a < b < |flat|
      ensures flat[a].key != flat[b].key
    {
      assert keys[a] != keys[b];
    }
  }

  lemma {:induction false} SetOfSeq<K>(keys: seq<K>)
    ensures |set k | k in keys| <= |keys|
  {
    if keys != [] {
      SetOfSeq(keys[1..]);
      assert (set k | k in keys) == {keys[0]} + (set k | k in keys[1..]);
    } else {
      assert (set k | k in keys) == {};
    }
  }

  lemma {:induction false} DistinctBySize<K>(keys: seq<K>)
    requires |set k | k in keys| == |keys|
    ensures forall a, b | 0 <= a < b < |keys| :: keys[a] != keys[b]
  {
    if keys != [] {
      var tail := keys[1..];
      SetOfSeq(tail);
      var all, rest := set k | k in keys, set k | k in tail;
      assert all == {keys[0]} + rest;
      assert keys[0] in rest ==> all == rest;
      DistinctBySize(tail);
      forall a, b | 0 <= a < b < |keys|
        ensures keys[a] != keys[b]
      {
        assert keys[b] == tail[b - 1];
        assert a > 0 ==> keys[a] == tail[a - 1];
      }
    }
  }

  /** The entry at the front of its own chain is the one a search for its key finds. */
  lemma FrontOfStored<K(!new), V(!new)>(bs: Buckets<K, V>, h: Hasher<K>, m: map<K, V>, size: nat, i: nat)
    requires Stored(bs, h, m, size) && i < |bs| && bs[i] != []
    ensures BucketOf(bs, h, bs[i][0].key) == i && Search(bs[i], h, bs[i][0].key, 0) == 0
    ensures WithoutEntry(bs[i], 0) == bs[i][1..]
  {
    assert bs[i][0] in bs[i];
  }

  class Hashmap<K(==, !new), V(!new)> {
    const hasher: Hasher<K>
    var buckets: array<seq<Entry<K, V>>>
    var size: nat

    /** The mathematical map this map stands for, under the keys as they were first put. */
    ghost var contents: map<K, V>

    ghost predicate Valid()
      reads this, buckets
    {
      && GoodHasher(hasher)
      && Stored(buckets[..], hasher, contents, size)
    }

    /** The load factor promised after every operation whose allocations succeed. */
    predicate Loaded()
      reads this
    {
      size <= LoadLimit(buckets.Length)
    }

    /** One more entry makes the map want more buckets. */
    predicate Full()
      reads this
    {
      size + 1 > LoadLimit(buckets.Length)
    }

    constructor (initialCapacity: u64, hasher: Hasher<K>)
      requires GoodHasher(hasher)
      ensures Valid() && fresh(buckets) && contents == map[] && this.hasher == hasher && Loaded()
      ensures U64(initialCapacity * 4) / 3 < buckets.Length <= TWO63
      ensures buckets.Length == 1 || buckets.Length / 2 <= U64(initialCapacity * 4) / 3
    {
      var minimumBucketCount := U64(initialCapacity * 4) / 3;
      var bucketCount := 1;
      ghost var k := 0;
      while bucketCount <= minimumBucketCount
        invariant bucketCount == Pow2(k) && 1 <= bucketCount
        invariant bucketCount == 1 || bucketCount / 2 <= minimumBucketCount
        invariant bucketCount <= TWO63
        decreases minimumBucketCount + 1 - bucketCount
      {
        ShiftStays(bucketCount, k, minimumBucketCount);
        bucketCount := bucketCount * 2;
        k := k + 1;
      }
      var empty := EmptyBuckets(bucketCount);
      buckets := empty;
      size := 0;
      this.hasher := hasher;
      contents := map[];
      new;
      assert buckets.Length == Pow2(k);
      TotalEmpty(buckets[..]);
    }

    /** No shift in hashmapCreate leaves 64 bits. */
    static lemma ShiftStays(bucketCount: nat, k: nat, bound: nat)
      requires bucketCount == Pow2(k) && bucketCount <= bound && 3 * bound < TWO64
      ensures 2 * bucketCount <= TWO63
    {
      Pow2Of63();
      if k >= 63 {
        Pow2Monotone(63, k);
      } else {
        Pow2Monotone(k + 1, 63);
      }
    }

    static lemma Pow2Of63()
      ensures Pow2(63) == TWO63
    {
      assert Pow2(10) == 0x400;
      assert Pow2(20) == 0x10_0000;
      assert Pow2(30) == 0x4000_0000;
      assert Pow2(40) == 0x100_0000_0000;
      assert Pow2(50) == 0x4_0000_0000_0000;
      assert Pow2(60) == 0x1000_0000_0000_0000;
    }

    static lemma {:induction false} Pow2Monotone(a: nat, b: nat)
      requires a <= b
      ensures Pow2(a) <= Pow2(b)
      decreases b
    {
      if a < b {
        Pow2Monotone(a, b - 1);
      }
    }

    /** The loops of expandIfNecessary: every entry moves to the front of its new chain. */
    method MoveEntries(newBuckets: array<seq<Entry<K, V>>>)
      requires newBuckets != buckets && IsPow2(newBuckets.Length) && newBuckets.Length > 0
      modifies newBuckets
      ensures newBuckets[..] == PushBuckets(old(newBuckets[..]), buckets[..], 0)
    {
      ghost var empty, src := newBuckets[..], buckets[..];
      var i := 0;
      while i < buckets.Length
        invariant i <= buckets.Length && src == buckets[..]
        invariant PushBuckets(empty, src, 0) == PushBuckets(newBuckets[..], src, i)
      {
        MoveChain(newBuckets, buckets[i]);
        i := i + 1;
      }
    }

    static method MoveChain(newBuckets: array<seq<Entry<K, V>>>, chain: seq<Entry<K, V>>)
      requires IsPow2(newBuckets.Length) && newBuckets.Length > 0
      modifies newBuckets
      ensures newBuckets[..] == PushChain(old(newBuckets[..]), chain)
    {
      var entry := chain;
      while entry != []
        invariant PushChain(old(newBuckets[..]), chain) == PushChain(newBuckets[..], entry)
        decreases |entry|
      {
        var next := entry[1..];
        ghost var before := newBuckets[..];
        IndexIsModulo(newBuckets.Length, entry[0].hash);
        var index := CalculateIndex(newBuckets.Length, entry[0].hash);
        newBuckets[index] := [entry[0]] + newBuckets[index];
        assert newBuckets[..] == Push(before, entry[0]);
        entry := next;
      }
    }

    /** The expansion itself, into an array of twice the size. */
    method Grow()
      requires Valid()
      modifies this`buckets
      ensures Valid() && fresh(buckets) && buckets.Length == 2 * old(buckets).Length
    {
      hide Represents, Total;
      var newBuckets := EmptyBuckets(2 * buckets.Length);
      ghost var empty := newBuckets[..];
      RehashStored(empty, buckets[..], hasher, contents, size);
      MoveEntries(newBuckets);
      buckets := newBuckets;
    }

    /** calloc */
    static method EmptyBuckets(n: nat) returns (a: array<seq<Entry<K, V>>>)
      ensures fresh(a) && a.Length == n && forall i | 0 <= i < n :: a[i] == []
    {
      var none: seq<Entry<K, V>> := [];
      a := new seq<Entry<K, V>>[n](_ => none);
    }

    /**
     `bucketsOk` says whether the larger array can be allocated.  If it is
     wanted and cannot be, the map stays as it is and errno becomes ENOMEM.
     */
    method ExpandIfNecessary(bucketsOk: bool) returns (enomem: bool)
      requires Valid()
      modifies this`buckets
      ensures Valid()
      ensures buckets == old(buckets) || fresh(buckets)
      ensures enomem <==> size > LoadLimit(old(buckets).Length) && !bucketsOk
      ensures buckets.Length ==
                old(buckets).Length * (if size > LoadLimit(old(buckets).Length) && bucketsOk then 2 else 1)
      ensures bucketsOk && size <= LoadLimit(old(buckets).Length) + 1 ==> Loaded()
    {
      if size > LoadLimit(buckets.Length) {
        if !bucketsOk {
          return true;
        }
        DoublingMakesRoom(buckets.Length);
        Grow();
      }
      return false;
    }

    /** The walk along one chain; index and position of the entry, or the end of the chain. */
    method FindEntry(key: K) returns (index: nat, p: nat)
      requires Valid()
      ensures index == BucketOf(buckets[..], hasher, key) && p == Search(buckets[index], hasher, key, 0)
      ensures if p < |buckets[index]|
              then Equivalent(contents, hasher, key, buckets[index][p].key)
                   && contents[buckets[index][p].key] == buckets[index][p].value
              else forall k :: !Equivalent(contents, hasher, key, k)
    {
      var hash := HashKey(hasher, key);
      LookUp(buckets[..], hasher, contents, key);
      index := CalculateIndex(buckets.Length, hash);
      p := 0;
      while p < |buckets[index]|
        invariant p <= |buckets[index]|
        invariant Search(buckets[index], hasher, key, 0) == Search(buckets[index], hasher, key, p)
      {
        if EqualKeys(buckets[index][p].key, buckets[index][p].hash, key, hash, hasher) {
          return;
        }
        p := p + 1;
      }
    }

    method AppendEntry(index: nat, key: K, value: V)
      requires Valid() && index < buckets.Length && index == BucketOf(buckets[..], hasher, key)
      requires forall k :: !Equivalent(contents, hasher, key, k)
      modifies this`contents, this`size, buckets
      ensures Valid() && contents == old(contents)[key := value] && size == old(size) + 1
    {
      hide Good, Represents, Total;
      ghost var bs := buckets[..];
      var e := Entry(key, HashKey(hasher, key), value);
      AppendStored(bs, hasher, contents, size, e);
      buckets[index] := buckets[index] + [e];
      assert buckets[..] == bs[index := bs[index] + [e]];
      contents := contents[key := value];
      size := size + 1;
    }

    method AddEntry(index: nat, key: K, value: V, bucketsOk: bool) returns (enomem: bool)
      requires Valid() && index < buckets.Length && index == BucketOf(buckets[..], hasher, key)
      requires forall k :: !Equivalent(contents, hasher, key, k)
      modifies this, buckets
      ensures Valid() && (buckets == old(buckets) || fresh(buckets))
      ensures contents == old(contents)[key := value]
      ensures enomem <==> old(Full()) && !bucketsOk
      ensures buckets.Length == old(buckets.Length) * (if old(Full()) && bucketsOk then 2 else 1)
      ensures bucketsOk && old(Loaded()) ==> Loaded()
    {
      AppendEntry(index, key, value);
      enomem := ExpandIfNecessary(bucketsOk);
    }

    method ReplaceValue(index: nat, p: nat, value: V)
      requires Valid() && index < buckets.Length && p < |buckets[index]|
      modifies this`contents, buckets
      ensures Valid() && contents == old(contents)[old(buckets[index])[p].key := value]
    {
      hide Good, Represents, Total;
      ghost var bs := buckets[..];
      var current := buckets[index][p];
      ReplaceStored(bs, hasher, contents, size, index, p, value);
      buckets[index] := buckets[index][p := Entry(current.key, current.hash, value)];
      assert buckets[..] == bs[index := bs[index][p := Entry(current.key, current.hash, value)]];
      contents := contents[current.key := value];
    }

    method RemoveAt(index: nat, p: nat)
      requires Valid() && index < buckets.Length && p < |buckets[index]|
      modifies this`contents, this`size, buckets
      ensures Valid() && contents == old(contents) - {old(buckets[index])[p].key} && size == old(size) - 1
      ensures buckets[..] == old(buckets[..])[index := WithoutEntry(old(buckets[index]), p)]
    {
      hide Good, Represents, Total;
      ghost var bs := buckets[..];
      var current, rest := buckets[index][p], WithoutEntry(buckets[index], p);
      RemoveStored(bs, hasher, contents, size, index, p);
      ghost var bs' := bs[index := rest];
      ghost var contents' := contents - {current.key};
      assert Stored(bs', hasher, contents', size - 1);
      buckets[index] := rest;
      assert buckets[..] == bs';
      contents, size := contents', size - 1;
    }

    /** What an operation on `key` finds: the stored key equal to it and its value. */
    twostate predicate Was(key: K, k: K, v: V)
      reads this
    {
      Equivalent(old(contents), hasher, key, k) && v == old(contents)[k]
    }

    /**
     The previous value, if an equal key was stored.  `enomem` is errno: it is
     set when the entry cannot be allocated, and also when it could and was
     added, but the larger bucket array could not be.
     */
    method Put(key: K, value: V, entryOk: bool, bucketsOk: bool) returns (r: Option<V>, enomem: bool)
      requires Valid()
      modifies this, buckets
      ensures Valid() && (buckets == old(buckets) || fresh(buckets))
      ensures r.Some? ==> !enomem && exists k :: Was(key, k, r.value) && contents == old(contents)[k := value]
      ensures r.None? ==> forall k :: !Equivalent(old(contents), hasher, key, k)
      ensures r.None? ==> (enomem <==> !entryOk || (old(Full()) && !bucketsOk))
      ensures r.None? ==> contents == if entryOk then old(contents)[key := value] else old(contents)
      ensures buckets.Length ==
                old(buckets.Length) * (if r.None? && entryOk && old(Full()) && bucketsOk then 2 else 1)
      ensures bucketsOk && old(Loaded()) ==> Loaded()
    {
      hide Stored, GoodHasher, Search, BucketOf, Equivalent;
      var index, p := FindEntry(key);
      if p == |buckets[index]| {
        if !entryOk {
          return None, true;
        }
        enomem := AddEntry(index, key, value, bucketsOk);
        return None, enomem;
      }
      var current := buckets[index][p];
      ReplaceValue(index, p, value);
      assert Was(key, current.key, current.value);
      return Some(current.value), false;
    }

    method Get(key: K) returns (r: Option<V>)
      requires Valid()
      ensures r.Some? ==> exists k :: Equivalent(contents, hasher, key, k) && r.value == contents[k]
      ensures r.None? ==> forall k :: !Equivalent(contents, hasher, key, k)
    {
      var index, p := FindEntry(key);
      r := if p < |buckets[index]| then Some(buckets[index][p].value) else None;
    }

    method ContainsKey(key: K) returns (found: bool)
      requires Valid()
      ensures found <==> exists k :: Equivalent(contents, hasher, key, k)
    {
      var index, p := FindEntry(key);
      found := p < |buckets[index]|;
    }

    /** The stored value, or `initial` - the callback's result - stored under the key; `enomem` as for Put. */
    method Memoize(key: K, initial: V, entryOk: bool, bucketsOk: bool) returns (r: Option<V>, enomem: bool)
      requires Valid()
      modifies this, buckets
      ensures Valid() && (buckets == old(buckets) || fresh(buckets))
      ensures (exists k :: Equivalent(old(contents), hasher, key, k)) ==>
                && contents == old(contents) && !enomem
                && exists k :: Equivalent(contents, hasher, key, k) && r == Some(contents[k])
      ensures (forall k :: !Equivalent(old(contents), hasher, key, k)) ==>
                && (enomem <==> !entryOk || (old(Full()) && !bucketsOk))
                && if entryOk then r == Some(initial) && contents == old(contents)[key := initial]
                   else r == None && contents == old(contents)
      ensures bucketsOk && old(Loaded()) ==> Loaded()
    {
      hide Stored, GoodHasher, Search, BucketOf, Equivalent;
      var index, p := FindEntry(key);
      if p < |buckets[index]| {
        return Some(buckets[index][p].value), false;
      }
      if !entryOk {
        return None, true;
      }
      enomem := AddEntry(index, key, initial, bucketsOk);
      return Some(initial), enomem;
    }

    method Remove(key: K) returns (r: Option<V>)
      requires Valid()
      modifies this, buckets
      ensures Valid() && buckets == old(buckets)
      ensures r.Some? ==> exists k :: Was(key, k, r.value) && contents == old(contents) - {k}
      ensures r.None? ==> contents == old(contents) && forall k :: !Equivalent(old(contents), hasher, key, k)
      ensures
        var bs := old(buckets[..]); var i := BucketOf(bs, hasher, key); var p := Search(bs[i], hasher, key, 0);
        buckets[..] == if p < |bs[i]| then bs[i := WithoutEntry(bs[i], p)] else bs
      ensures old(Loaded()) ==> Loaded()
    {
      hide Good, Represents, Total, Search;
      var index, p := FindEntry(key);
      if p == |buckets[index]| {
        return None;
      }
      var current := buckets[index][p];
      RemoveAt(index, p);
      assert Was(key, current.key, current.value);
      return Some(current.value);
    }

    /**
     hashmapForEach with a callback that leaves the map alone; `goOn` is what it
     returns.  Up to the entry at which it stops, each pair is visited once.
     */
    method ForEach(goOn: Entry<K, V> -> bool) returns (visited: seq<Entry<K, V>>)
      requires Valid()
      ensures visited == Until(Flat(buckets[..]), goOn)
      ensures forall j | 0 <= j < |visited| - 1 :: goOn(visited[j])
      ensures forall e <- visited :: e.key in contents && contents[e.key] == e.value
      ensures forall a, b | 0 <= a < b < |visited| :: visited[a].key != visited[b].key
      ensures (visited == [] || goOn(visited[|visited| - 1])) ==>
                |visited| == |contents| && forall k <- contents :: exists e :: e in visited && e.key == k
    {
      hide Stored, Flat, Until;
      FlatEnumerates(buckets[..], hasher, contents, size);
      UntilIsPrefix(Flat(buckets[..]), goOn);
      visited := Walk(goOn);
    }

    /** The nested loops of hashmapForEach. */
    method Walk(goOn: Entry<K, V> -> bool) returns (visited: seq<Entry<K, V>>)
      ensures visited == Until(Flat(buckets[..]), goOn)
    {
      hide Flat, Until;
      ghost var all := Until(Flat(buckets[..]), goOn);
      visited := [];
      var i := 0;
      assert buckets[0..] == buckets[..];
      while i < buckets.Length
        invariant i <= buckets.Length && visited + Until(Flat(buckets[i..]), goOn) == all
      {
        var entry := buckets[i];
        FlatCons(buckets[i..]);
        assert buckets[i..][1..] == buckets[i + 1..];
        while entry != []
          invariant visited + Until(entry + Flat(buckets[i + 1..]), goOn) == all
          decreases |entry|
        {
          UntilCons(entry, Flat(buckets[i + 1..]), goOn);
          visited := visited + [entry[0]];
          if !goOn(entry[0]) {
            return;
          }
          entry := entry[1..];
        }
        assert entry + Flat(buckets[i + 1..]) == Flat(buckets[i + 1..]);
        i := i + 1;
      }
      assert buckets[i..] == [];
      NothingVisited(goOn);
    }

    /** The walk down chain `i` with a callback that removes the entry it is given. */
    method RemoveChain(i: nat) returns (visited: seq<Entry<K, V>>)
      requires Valid() && i < buckets.Length
      modifies this, buckets
      ensures Valid() && buckets == old(buckets)
      ensures buckets[..] == old(buckets[..])[i := []] && visited == old(buckets[i])
    {
      hide Stored, GoodHasher, Search, BucketOf, WithoutEntry;
      ghost var src := buckets[..];
      visited := [];
      var entry := buckets[i];
      assert src == src[i := entry];
      while entry != []
        invariant Valid() && buckets == old(buckets) && i < buckets.Length == |src|
        invariant buckets[..] == src[i := entry]
        invariant visited + entry == src[i]
        decreases |entry|
      {
        ghost var bs := buckets[..];
        var next := entry[1..];
        visited := visited + [entry[0]];
        FrontOfStored(bs, hasher, contents, size, i);
        var _ := Remove(entry[0].key);
        assert buckets[..] == bs[i := next];
        entry := next;
      }
    }

    /** hashmapForEach with such a callback: every entry is visited once and the map ends up empty. */
    method RemoveEach() returns (visited: seq<Entry<K, V>>)
      requires Valid()
      modifies this, buckets
      ensures Valid() && buckets == old(buckets) && contents == map[]
      ensures visited == Flat(old(buckets[..]))
    {
      hide Good, Represents, Search;
      ghost var src := buckets[..];
      visited := [];
      var i := 0;
      while i < buckets.Length
        invariant Valid() && buckets == old(buckets) && i <= buckets.Length == |src|
        invariant forall j | 0 <= j < |src| :: buckets[j] == if j < i then [] else src[j]
        invariant visited == Flat(src[..i])
      {
        FlatSnoc(src[..i], src[i]);
        assert src[..i + 1] == src[..i] + [src[i]];
        ghost var bs := buckets[..];
        var chain := RemoveChain(i);
        assert forall j | 0 <= j < |src| :: buckets[..][j] == if j == i then [] else bs[j];
        visited := visited + chain;
        i := i + 1;
      }
      assert src[..i] == src;
      TotalEmpty(buckets[..]);
    }
  }
}

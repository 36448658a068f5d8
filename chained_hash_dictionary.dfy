/**
 * The separate-chaining hash map: an array of buckets, a key living in the
 * bucket its hash selects, the table growing through a fixed list of primes
 * once the entry count reaches three quarters of the table size.
 *
 * A bucket is null or an `ArrayDictionary`; here a non-null bucket is the
 * sequence of its pairs in stored order, and the bucket operations are the
 * functions `Lookup`, `PutPair` and `RemovePair` that `ArrayDictionary`'s
 * methods are proved against.
 */
module ChainedHashDictionaries {
  import opened Wrappers
  import AD = ArrayDictionaries

  /** Table size of a fresh dictionary. */
  const INITIAL_CAPACITY: nat := 7

  /** The successive table sizes. */
  const PRIMES: seq<nat> := [
    7, 13, 31, 61, 127, 251, 509, 1021, 2039, 4093, 8191, 16381,
    32749, 65521, 131071, 262139, 524287, 1048573, 2097143, 4194301,
    8388593, 16777213, 33554393, 67108859, 134217689, 268435399,
    536870909, 1073741789, 2147483647]

  /** The entry count at which a table of `tableSize` buckets grows: three quarters of it. */
  function MaxPairs(tableSize: nat): nat {
    tableSize * 3 / 4
  }

  /** Entry count the last table size tolerates; reaching it would step past the end of PRIMES. */
  const LAST_THRESHOLD: nat := MaxPairs(PRIMES[|PRIMES| - 1])

  /** Every table size of PRIMES has a larger threshold than the one before it. */
  lemma ThresholdsIncrease()
    ensures forall i :: 0 <= i < |PRIMES| - 1 ==> MaxPairs(PRIMES[i]) < MaxPairs(PRIMES[i + 1])
  {
    forall i | 0 <= i < |PRIMES| - 1
      ensures MaxPairs(PRIMES[i]) < MaxPairs(PRIMES[i + 1])
    {
      assert PRIMES[i] < PRIMES[i + 1];
    }
  }

  /** A Java `int`. */
  type Int32 = x: int | -0x8000_0000 <= x < 0x8000_0000

  /** The Java `int` whose two's complement bit pattern is `w`. */
  function Signed(w: bv32): int {
    if w < 0x8000_0000 then w as int else w as int - 0x1_0000_0000
  }

  lemma LowHalf(w: bv32)
    requires w < 0x8000_0000
    ensures w & 0x7fff_ffff == w && 0 <= w as int < 0x8000_0000
  {
  }

  lemma HighHalf(w: bv32)
    requires w >= 0x8000_0000
    ensures (w & 0x7fff_ffff) as int == w as int - 0x8000_0000 && 0x8000_0000 <= w as int < 0x1_0000_0000
  {
    assert w & 0x7fff_ffff == w - 0x8000_0000;
  }

  lemma ModBelow(n: int)
    requires 0 <= n < 0x8000_0000
    ensures n % 0x8000_0000 == n
  {
  }

  lemma ModAbove(n: int)
    requires -0x8000_0000 <= n < 0
    ensures n % 0x8000_0000 == n + 0x8000_0000
  {
  }

  /** Clearing the sign bit of a hash code takes its value modulo 2^31. */
  lemma MaskIsModulo(w: bv32)
    ensures (w & 0x7fff_ffff) as int == Signed(w) % 0x8000_0000
  {
    if w < 0x8000_0000 {
      LowHalf(w);
      ModBelow(w as int);
    } else {
      HighHalf(w);
      ModAbove(w as int - 0x1_0000_0000);
    }
  }

  /**
   * `hash`: the bucket of `key` in a table of `tableSize` buckets, 0 for the
   * null key, otherwise the hash code with its sign bit cleared, modulo the
   * table size. Clearing the sign bit is written as the remainder modulo
   * 2^31, which `BucketClearsSignBit` shows to be the same number.
   */
  function Bucket<K>(hashCode: K -> Int32, key: Option<K>, tableSize: nat): (h: nat)
    requires tableSize > 0
    ensures h < tableSize
    ensures key == None ==> h == 0
  {
    match key
    case None => 0
    case Some(k) => hashCode(k) % 0x8000_0000 % tableSize
  }

  /**
   * The bucket of a non-null key whose hash code has the bit pattern `w` is
   * `w` with its sign bit cleared, modulo the table size.
   */
  lemma BucketClearsSignBit<K>(hashCode: K -> Int32, k: K, w: bv32, tableSize: nat)
    requires tableSize > 0 && Signed(w) == hashCode(k)
    ensures Bucket(hashCode, Some(k), tableSize) == (w & 0x7fff_ffff) as int % tableSize
  {
    MaskIsModulo(w);
  }

  /** A bucket: null, or the pairs of its array dictionary in stored order. */
  type Chain<K, V> = Option<seq<AD.Pair<Option<K>, V>>>

  /** The pairs of a bucket; a null bucket has none. */
  function Pairs<K, V>(c: Chain<K, V>): seq<AD.Pair<Option<K>, V>> {
    if c.Some? then c.value else []
  }

  /** The bindings a bucket holds. */
  ghost function ChainMap<K, V>(c: Chain<K, V>): map<Option<K>, V> {
    AD.AsMap(Pairs(c))
  }

  /**
   * The abstract invariant of the table: every bucket has distinct keys, every
   * binding of bucket `i` has a key that hashes to `i` and is a binding of
   * `contents`, and every binding of `contents` is in the bucket its key hashes to.
   */
  ghost predicate Hashed<K, V>(hashCode: K -> Int32, chains: seq<Chain<K, V>>, contents: map<Option<K>, V>) {
    && |chains| > 0
    && (forall i {:trigger Pairs(chains[i])} :: 0 <= i < |chains| ==> AD.DistinctKeys(Pairs(chains[i])))
    && (forall i, k {:trigger k in ChainMap(chains[i])} :: 0 <= i < |chains| && k in ChainMap(chains[i]) ==>
          Bucket(hashCode, k, |chains|) == i && k in contents && contents[k] == ChainMap(chains[i])[k])
    && (forall k {:trigger Bucket(hashCode, k, |chains|)} :: k in contents ==> k in ChainMap(chains[Bucket(hashCode, k, |chains|)]))
  }

  /** A key is bound exactly when the bucket it hashes to binds it, to the same value. */
  lemma HashedLookup<K, V>(hashCode: K -> Int32, chains: seq<Chain<K, V>>, contents: map<Option<K>, V>, k: Option<K>)
    requires Hashed(hashCode, chains, contents)
    ensures var c := chains[Bucket(hashCode, k, |chains|)];
            && (k in contents <==> k in ChainMap(c))
            && (k in contents <==> AD.FindKey(Pairs(c), k) != -1)
            && (k in contents ==> AD.Lookup(Pairs(c), k) == Success(contents[k]))
            && (k !in contents ==> AD.Lookup(Pairs(c), k) == Failure(NoSuchKey))
  {
    AD.LookupIsMap(Pairs(chains[Bucket(hashCode, k, |chains|)]), k);
    AD.AsMapLookup(Pairs(chains[Bucket(hashCode, k, |chains|)]), k);
  }

  /** A table of null buckets holds no binding. */
  lemma HashedEmpty<K, V>(hashCode: K -> Int32, n: nat)
    requires n > 0
    ensures Hashed<K, V>(hashCode, seq(n, _ => None), map[])
  {
  }

  /** Replacing bucket `i` by `c`, whose keys are distinct, keeps every bucket's keys distinct. */
  lemma UpdateDistinct<K, V>(chains: seq<Chain<K, V>>, i: nat, c: Chain<K, V>)
    requires i < |chains| && AD.DistinctKeys(Pairs(c))
    requires forall j {:trigger Pairs(chains[j])} :: 0 <= j < |chains| ==> AD.DistinctKeys(Pairs(chains[j]))
    ensures forall j {:trigger Pairs(chains[i := c][j])} :: 0 <= j < |chains| ==> AD.DistinctKeys(Pairs(chains[i := c][j]))
  {
    var cs := chains[i := c];
    forall j | 0 <= j < |cs|
      ensures AD.DistinctKeys(Pairs(cs[j]))
    {
      if j != i {
        assert cs[j] == chains[j];
      }
    }
  }

  /** Replacing bucket `i` by `c` keeps every binding of every bucket a binding of `contents'` that hashes there. */
  lemma UpdatePlaced<K, V>(hashCode: K -> Int32, chains: seq<Chain<K, V>>, contents: map<Option<K>, V>,
                           i: nat, c: Chain<K, V>, contents': map<Option<K>, V>)
    requires Hashed(hashCode, chains, contents) && i < |chains|
    requires forall k :: k in ChainMap(c) ==> Bucket(hashCode, k, |chains|) == i && k in contents' && contents'[k] == ChainMap(c)[k]
    requires forall k :: k in contents' && Bucket(hashCode, k, |chains|) != i ==> k in contents && contents'[k] == contents[k]
    requires forall k :: k in contents && Bucket(hashCode, k, |chains|) != i ==> k in contents'
    ensures forall j, k {:trigger k in ChainMap(chains[i := c][j])} :: 0 <= j < |chains| && k in ChainMap(chains[i := c][j]) ==>
              Bucket(hashCode, k, |chains|) == j && k in contents' && contents'[k] == ChainMap(chains[i := c][j])[k]
  {
    var cs := chains[i := c];
    forall j, k | 0 <= j < |cs| && k in ChainMap(cs[j])
      ensures Bucket(hashCode, k, |cs|) == j && k in contents' && contents'[k] == ChainMap(cs[j])[k]
    {
      if j != i {
        assert cs[j] == chains[j];
      }
    }
  }

  /** Replacing bucket `i` by `c` keeps every binding of `contents'` in the bucket its key hashes to. */
  lemma UpdateCovered<K, V>(hashCode: K -> Int32, chains: seq<Chain<K, V>>, contents: map<Option<K>, V>,
                            i: nat, c: Chain<K, V>, contents': map<Option<K>, V>)
    requires Hashed(hashCode, chains, contents) && i < |chains|
    requires forall k :: k in contents' && Bucket(hashCode, k, |chains|) == i ==> k in ChainMap(c)
    requires forall k :: k in contents' && Bucket(hashCode, k, |chains|) != i ==> k in contents && contents'[k] == contents[k]
    ensures forall k {:trigger Bucket(hashCode, k, |chains|)} :: k in contents' ==> k in ChainMap(chains[i := c][Bucket(hashCode, k, |chains|)])
  {
    var cs := chains[i := c];
    forall k | k in contents'
      ensures k in ChainMap(cs[Bucket(hashCode, k, |cs|)])
    {
      var j := Bucket(hashCode, k, |cs|);
      if j != i {
        assert cs[j] == chains[j];
      }
    }
  }

  /**
   * Replacing bucket `i` by `c` keeps the table hashed once `c` holds, with
   * distinct keys, exactly the new bindings whose key hashes to `i`, and the
   * bindings of the other buckets are unchanged.
   */
  lemma HashedUpdate<K, V>(hashCode: K -> Int32, chains: seq<Chain<K, V>>, contents: map<Option<K>, V>,
                           i: nat, c: Chain<K, V>, contents': map<Option<K>, V>)
    requires Hashed(hashCode, chains, contents) && i < |chains|
    requires AD.DistinctKeys(Pairs(c))
    requires forall k :: k in ChainMap(c) ==> Bucket(hashCode, k, |chains|) == i && k in contents' && contents'[k] == ChainMap(c)[k]
    requires forall k :: k in contents' && Bucket(hashCode, k, |chains|) == i ==> k in ChainMap(c)
    requires forall k :: k in contents' && Bucket(hashCode, k, |chains|) != i ==> k in contents && contents'[k] == contents[k]
    requires forall k :: k in contents && Bucket(hashCode, k, |chains|) != i ==> k in contents'
    ensures Hashed(hashCode, chains[i := c], contents')
  {
    UpdateDistinct(chains, i, c);
    UpdatePlaced(hashCode, chains, contents, i, c, contents');
    UpdateCovered(hashCode, chains, contents, i, c, contents');
  }

  /** Putting `k` into the bucket it hashes to (created when null) binds it in the table and changes nothing else. */
  lemma HashedPut<K, V>(hashCode: K -> Int32, chains: seq<Chain<K, V>>, contents: map<Option<K>, V>, k: Option<K>, v: V)
    requires Hashed(hashCode, chains, contents)
    ensures var i := Bucket(hashCode, k, |chains|);
            Hashed(hashCode, chains[i := Some(AD.PutPair(Pairs(chains[i]), k, v))], contents[k := v])
  {
    var i := Bucket(hashCode, k, |chains|);
    var c := Some(AD.PutPair(Pairs(chains[i]), k, v));
    AD.PutPairIsMap(Pairs(chains[i]), k, v);
    assert ChainMap(c) == ChainMap(chains[i])[k := v];
    HashedUpdate(hashCode, chains, contents, i, c, contents[k := v]);
  }

  /** Removing `k` from the bucket it hashes to unbinds it in the table and changes nothing else. */
  lemma HashedRemove<K, V>(hashCode: K -> Int32, chains: seq<Chain<K, V>>, contents: map<Option<K>, V>, k: Option<K>)
    requires Hashed(hashCode, chains, contents)
    ensures var i := Bucket(hashCode, k, |chains|);
            Hashed(hashCode, chains[i := Some(AD.RemovePair(Pairs(chains[i]), k))], Without(contents, k))
  {
    var i := Bucket(hashCode, k, |chains|);
    var c := Some(AD.RemovePair(Pairs(chains[i]), k));
    RemovePairChainMap(chains[i], k);
    WithoutIsRemoval(contents, k);
    HashedUpdate(hashCode, chains, contents, i, c, Without(contents, k));
  }

  /** Dropping the pair of `k` from a bucket with distinct keys unbinds exactly `k`. */
  lemma RemovePairChainMap<K, V>(c: Chain<K, V>, k: Option<K>)
    requires AD.DistinctKeys(Pairs(c))
    ensures AD.DistinctKeys(Pairs(Some(AD.RemovePair(Pairs(c), k))))
    ensures ChainMap(Some(AD.RemovePair(Pairs(c), k))) == ChainMap(c) - {k}
  {
    AD.RemovePairIsMap(Pairs(c), k);
  }

  /** `Without` is map subtraction of one key. */
  lemma WithoutIsRemoval<K, V>(m: map<K, V>, k: K)
    ensures Without(m, k) == m - {k}
  {
  }

  /** The pairs of the buckets one after the other: what iterating the table yields. */
  function Flatten<K, V>(chains: seq<Chain<K, V>>): seq<AD.Pair<Option<K>, V>> {
    if chains == [] then [] else Pairs(chains[0]) + Flatten(chains[1..])
  }

  /** The bindings of `contents` whose key hashes to bucket `i` or later. */
  ghost function BindingsFrom<K, V>(hashCode: K -> Int32, n: nat, contents: map<Option<K>, V>, i: nat): map<Option<K>, V>
    requires n > 0
  {
    map k | k in contents && Bucket(hashCode, k, n) >= i :: contents[k]
  }

  /** The bindings from bucket `i` on are those of bucket `i` and those from bucket `i + 1` on. */
  lemma BindingsFromStep<K, V>(hashCode: K -> Int32, chains: seq<Chain<K, V>>, contents: map<Option<K>, V>, i: nat)
    requires Hashed(hashCode, chains, contents) && i < |chains|
    ensures ChainMap(chains[i]) + BindingsFrom(hashCode, |chains|, contents, i + 1) == BindingsFrom(hashCode, |chains|, contents, i)
  {
    BucketBindings(hashCode, chains, contents, i);
    BindingsSplit(hashCode, |chains|, contents, i);
  }

  /** The bindings hashing to `i` or later are those hashing to `i` and those hashing later. */
  lemma BindingsSplit<K, V>(hashCode: K -> Int32, n: nat, contents: map<Option<K>, V>, i: nat)
    requires n > 0
    ensures (map k | k in contents && Bucket(hashCode, k, n) == i :: contents[k]) + BindingsFrom(hashCode, n, contents, i + 1)
            == BindingsFrom(hashCode, n, contents, i)
  {
    var u := (map k | k in contents && Bucket(hashCode, k, n) == i :: contents[k]) + BindingsFrom(hashCode, n, contents, i + 1);
    var w := BindingsFrom(hashCode, n, contents, i);
    assert u.Keys == w.Keys;
  }

  /** Bucket `i` holds exactly the bindings of `contents` whose key hashes to `i`. */
  lemma BucketBindings<K, V>(hashCode: K -> Int32, chains: seq<Chain<K, V>>, contents: map<Option<K>, V>, i: nat)
    requires Hashed(hashCode, chains, contents) && i < |chains|
    ensures ChainMap(chains[i]) == map k | k in contents && Bucket(hashCode, k, |chains|) == i :: contents[k]
  {
    var m := ChainMap(chains[i]);
    var b := map k | k in contents && Bucket(hashCode, k, |chains|) == i :: contents[k];
    assert m.Keys == b.Keys;
  }

  /** The pairs of the buckets from `i` on have distinct keys, the bindings that hash to `i` or later. */
  ghost predicate SuffixHolds<K, V>(hashCode: K -> Int32, chains: seq<Chain<K, V>>, contents: map<Option<K>, V>, i: nat)
    requires |chains| > 0 && i <= |chains|
  {
    var f := Flatten(chains[i..]);
    && AD.DistinctKeys(f)
    && AD.AsMap(f) == BindingsFrom(hashCode, |chains|, contents, i)
    && (forall m :: 0 <= m < |f| ==> Bucket(hashCode, f[m].key, |chains|) >= i)
  }

  /** Prepending bucket `i` to the buckets after it keeps SuffixHolds. */
  lemma FlattenStep<K, V>(hashCode: K -> Int32, chains: seq<Chain<K, V>>, contents: map<Option<K>, V>, i: nat)
    requires Hashed(hashCode, chains, contents) && i < |chains|
    requires SuffixHolds(hashCode, chains, contents, i + 1)
    ensures SuffixHolds(hashCode, chains, contents, i)
  {
    var n := |chains|;
    assert chains[i..][1..] == chains[i + 1..];
    var s := Pairs(chains[i]);
    var t := Flatten(chains[i + 1..]);
    assert Flatten(chains[i..]) == s + t;
    forall m | 0 <= m < |s|
      ensures s[m].key in ChainMap(chains[i]) && Bucket(hashCode, s[m].key, n) == i
    {
      AD.AsMapHolds(s, m);
    }
    AD.AsMapConcat(s, t);
    BindingsFromStep(hashCode, chains, contents, i);
  }

  /** The buckets from `i` on hold distinct keys, the bindings that hash to `i` or later. */
  lemma {:induction false} FlattenSuffix<K, V>(hashCode: K -> Int32, chains: seq<Chain<K, V>>, contents: map<Option<K>, V>, i: nat)
    requires Hashed(hashCode, chains, contents) && i <= |chains|
    ensures SuffixHolds(hashCode, chains, contents, i)
    decreases |chains| - i
  {
    if i == |chains| {
      assert chains[i..] == [];
      assert BindingsFrom(hashCode, |chains|, contents, i) == map[];
    } else {
      FlattenSuffix(hashCode, chains, contents, i + 1);
      FlattenStep(hashCode, chains, contents, i);
    }
  }

  /** Iterating a table yields each binding exactly once. */
  lemma FlattenIsContents<K, V>(hashCode: K -> Int32, chains: seq<Chain<K, V>>, contents: map<Option<K>, V>)
    requires Hashed(hashCode, chains, contents)
    ensures AD.DistinctKeys(Flatten(chains))
    ensures AD.AsMap(Flatten(chains)) == contents
    ensures |Flatten(chains)| == |contents|
  {
    FlattenSuffix(hashCode, chains, contents, 0);
    assert chains[0..] == chains;
    assert BindingsFrom(hashCode, |chains|, contents, 0) == contents;
    AD.AsMapSize(Flatten(chains));
  }

  /** The `m`-th pair of bucket `i` is a binding of the table, and its key hashes to `i`. */
  lemma PairIsBinding<K, V>(hashCode: K -> Int32, chains: seq<Chain<K, V>>, contents: map<Option<K>, V>, i: nat, m: nat)
    requires Hashed(hashCode, chains, contents)
    requires i < |chains| && m < |Pairs(chains[i])|
    ensures var p := Pairs(chains[i])[m];
            p.key in contents && contents[p.key] == p.value && Bucket(hashCode, p.key, |chains|) == i
  {
    AD.AsMapHolds(Pairs(chains[i]), m);
    assert Pairs(chains[i])[m].key in ChainMap(chains[i]);
  }

  /** Once every pair of bucket `i` is in `done`, so is every binding whose key hashes to `i`. */
  lemma BucketCovered<K, V>(hashCode: K -> Int32, chains: seq<Chain<K, V>>, contents: map<Option<K>, V>, i: nat,
                            done: map<Option<K>, V>)
    requires Hashed(hashCode, chains, contents) && i < |chains|
    requires forall m :: 0 <= m < |Pairs(chains[i])| ==> Pairs(chains[i])[m].key in done
    ensures forall k :: k in contents && Bucket(hashCode, k, |chains|) == i ==> k in done
  {
    forall k | k in contents && Bucket(hashCode, k, |chains|) == i
      ensures k in done
    {
      AD.AsMapLookup(Pairs(chains[i]), k);
    }
  }

  /** The bindings of `m` but the one of `k`. */
  ghost function Without<K, V>(m: map<K, V>, k: K): map<K, V> {
    map k' | k' in m && k' != k :: m[k']
  }

  /** Removing a bound key leaves one binding fewer. */
  lemma RemoveBoundKey<K, V>(m: map<K, V>, k: K)
    requires k in m
    ensures |Without(m, k)| == |m| - 1
  {
    assert Without(m, k).Keys == m.Keys - {k};
  }

  /**
   * The body shared by `put` and the rehash of `checkResize`: a null bucket
   * gets a fresh array dictionary, which then binds `key`; `added` tells
   * whether the key was new, for the caller's entry count.
   */
  method PutInto<K(==, !new), V(!new)>(hashCode: K -> Int32, table: array<Chain<K, V>>, ghost contents: map<Option<K>, V>,
                       key: Option<K>, value: V) returns (added: bool)
    requires table.Length > 0 && Hashed(hashCode, table[..], contents)
    modifies table
    ensures Hashed(hashCode, table[..], contents[key := value])
    ensures added <==> key !in contents
    ensures |contents[key := value]| == |contents| + (if added then 1 else 0)
  {
    var hash := Bucket(hashCode, key, table.Length);
    ghost var before := table[..];
    HashedLookup(hashCode, before, contents, key);
    HashedPut(hashCode, before, contents, key, value);
    if table[hash] == None {
      table[hash] := Some([]);
    }
    added := AD.FindKey(table[hash].value, key) == -1;
    table[hash] := Some(AD.PutPair(table[hash].value, key, value));
    assert table[..] == before[hash := Some(AD.PutPair(Pairs(before[hash]), key, value))];
  }

  /** Every binding of `m` is one of `n`. */
  ghost predicate SubMap<K, V>(m: map<K, V>, n: map<K, V>) {
    forall k :: k in m ==> k in n && m[k] == n[k]
  }

  /** Binding in `done'` a key that `contents` binds to the same value keeps `done'` between `done` and `contents`. */
  lemma SubMapGrow<K, V>(done: map<K, V>, done': map<K, V>, contents: map<K, V>, k: K, v: V)
    requires SubMap(done, done') && SubMap(done', contents) && k in contents && contents[k] == v
    ensures SubMap(done, done'[k := v]) && SubMap(done'[k := v], contents)
  {
  }

  /**
   * The inner loop of `checkResize`: the pairs of one old bucket, each a
   * binding of `contents`, are put in order into `newChains`, which holds
   * the bindings `done` and counts them in `count`.
   */
  method RehashBucket<K(==, !new), V(!new)>(hashCode: K -> Int32, pairs: seq<AD.Pair<Option<K>, V>>, newChains: array<Chain<K, V>>,
                                ghost contents: map<Option<K>, V>, ghost done: map<Option<K>, V>, count: nat)
    returns (ghost done': map<Option<K>, V>, count': nat)
    requires newChains.Length > 0 && Hashed(hashCode, newChains[..], done) && count == |done|
    requires SubMap(done, contents)
    requires forall m :: 0 <= m < |pairs| ==> pairs[m].key in contents && contents[pairs[m].key] == pairs[m].value
    modifies newChains
    ensures Hashed(hashCode, newChains[..], done') && count' == |done'|
    ensures SubMap(done, done') && SubMap(done', contents)
    ensures forall m :: 0 <= m < |pairs| ==> pairs[m].key in done'
  {
    done', count' := done, count;
    var j := 0;
    while j < |pairs|
      invariant j <= |pairs|
      invariant Hashed(hashCode, newChains[..], done') && count' == |done'|
      invariant SubMap(done, done') && SubMap(done', contents)
      invariant forall m :: 0 <= m < j ==> pairs[m].key in done'
    {
      var pair := pairs[j];
      var added := PutInto(hashCode, newChains, done', pair.key, pair.value);
      if added {
        count' := count' + 1;
      }
      SubMapGrow(done, done', contents, pair.key, pair.value);
      done' := done'[pair.key := pair.value];
      assert forall m :: 0 <= m <= j ==> pairs[m].key in done';
      j := j + 1;
    }
  }

  /**
   * The loop of `checkResize`: every pair of every non-null bucket of
   * `chains`, in bucket order, is put into the empty table `newChains`;
   * `count` is the entry count that loop rebuilds.
   */
  method Rehash<K(==, !new), V(!new)>(hashCode: K -> Int32, chains: array<Chain<K, V>>, newChains: array<Chain<K, V>>,
                          ghost contents: map<Option<K>, V>) returns (count: nat)
    requires chains != newChains && chains.Length > 0 && newChains.Length > 0
    requires Hashed(hashCode, chains[..], contents)
    requires forall h :: 0 <= h < newChains.Length ==> newChains[h] == None
    modifies newChains
    ensures Hashed(hashCode, newChains[..], contents) && count == |contents|
  {
    count := 0;
    ghost var done: map<Option<K>, V> := map[];
    HashedEmpty<K, V>(hashCode, newChains.Length);
    assert newChains[..] == seq(newChains.Length, _ => None);
    var i := 0;
    while i < chains.Length
      invariant i <= chains.Length
      invariant Hashed(hashCode, newChains[..], done) && count == |done| && SubMap(done, contents)
      invariant forall k :: k in contents && Bucket(hashCode, k, chains.Length) < i ==> k in done
    {
      if chains[i] != None {
        var pairs := chains[i].value;
        forall m | 0 <= m < |pairs|
          ensures pairs[m].key in contents && contents[pairs[m].key] == pairs[m].value
        {
          PairIsBinding(hashCode, chains[..], contents, i, m);
        }
        done, count := RehashBucket(hashCode, pairs, newChains, contents, done, count);
      }
      BucketCovered(hashCode, chains[..], contents, i, done);
      i := i + 1;
    }
    assert done == contents;
  }

  /**
   * The non-null branch of `remove`: the bucket of `key` drops its pair;
   * `found` tells whether there was one, for the caller's entry count.
   */
  method RemoveFrom<K(==, !new), V(!new)>(hashCode: K -> Int32, table: array<Chain<K, V>>,
                                          ghost contents: map<Option<K>, V>, key: Option<K>)
    returns (r: Result<V>, found: bool)
    requires table.Length > 0 && Hashed(hashCode, table[..], contents)
    requires table[Bucket(hashCode, key, table.Length)] != None
    modifies table
    ensures Hashed(hashCode, table[..], Without(contents, key))
    ensures found <==> key in contents
    ensures found ==> r == Success(contents[key]) && |Without(contents, key)| == |contents| - 1
    ensures !found ==> r == Failure(NoSuchKey) && Without(contents, key) == contents
  {
    var hash := Bucket(hashCode, key, table.Length);
    var pairs := table[hash].value;
    ghost var before := table[..];
    HashedLookup(hashCode, before, contents, key);
    found := AD.FindKey(pairs, key) != -1;
    if found {
      RemoveBoundKey(contents, key);
    }
    r := AD.Lookup(pairs, key);
    HashedRemove(hashCode, before, contents, key);
    table[hash] := Some(AD.RemovePair(pairs, key));
    assert table[..] == before[hash := Some(AD.RemovePair(Pairs(before[hash]), key))];
  }

  /** The slots of a bucket's array dictionary of `capacity` slots holding the pairs `live`. */
  function Slots<K, V>(live: seq<AD.Pair<Option<K>, V>>, capacity: nat): (a: seq<Option<AD.Pair<Option<K>, V>>>)
    requires |live| <= capacity
    ensures |a| == capacity
    ensures forall j :: 0 <= j < |live| ==> a[j] == Some(live[j])
    ensures forall j :: |live| <= j < capacity ==> a[j] == None
  {
    seq(capacity, j requires 0 <= j < capacity => if j < |live| then Some(live[j]) else None)
  }

  /**
   * The non-null branch of `remove` as written, on a bucket whose array
   * dictionary has `capacity` slots and holds `live`: the count drops first
   * when the bucket holds the key, then the bucket's `remove` runs its shift
   * loop as written. The answer and the new count; what an aborted shift
   * leaves in the bucket is not tracked.
   */
  function RemoveAsWritten<K(==), V>(pairsSize: int, live: seq<AD.Pair<Option<K>, V>>, capacity: nat, key: Option<K>): (Result<V>, int)
    requires |live| <= capacity
  {
    var i := AD.FindKey(live, key);
    if i == -1 then (Failure(NoSuchKey), pairsSize)
    else
      match AD.ShiftLeftAsWritten(Slots(live, capacity), i, |live|)
      case Failure(e) => (Failure(e), pairsSize - 1)
      case Success(_) => (Success(live[i].value), pairsSize - 1)
  }

  /**
   * Removing a key from a bucket whose array dictionary is full throws
   * ArrayIndexOutOfBounds, after the count has already dropped by one.
   */
  lemma ChainedRemoveOnFullBucketOverruns<K, V>(pairsSize: int, live: seq<AD.Pair<Option<K>, V>>, key: Option<K>)
    requires key in AD.AsMap(live)
    ensures RemoveAsWritten(pairsSize, live, |live|, key) == (Failure(IndexOutOfBounds), pairsSize - 1)
  {
    AD.AsMapLookup(live, key);
    AD.RemoveOnFullArrayOverruns(Slots(live, |live|), AD.FindKey(live, key));
  }

  /**
   * Below capacity `remove` as written answers as the corrected `RemoveFrom`
   * does: the key's value, or NoSuchKey, with the count dropping only for a
   * bound key.
   */
  lemma ChainedRemoveBelowCapacity<K, V>(pairsSize: int, live: seq<AD.Pair<Option<K>, V>>, capacity: nat, key: Option<K>)
    requires |live| < capacity
    ensures RemoveAsWritten(pairsSize, live, capacity, key)
         == (AD.Lookup(live, key), if key in AD.AsMap(live) then pairsSize - 1 else pairsSize)
  {
    AD.AsMapLookup(live, key);
    var i := AD.FindKey(live, key);
    if i != -1 {
      AD.ShiftLeftAsWrittenBelowCapacity(Slots(live, capacity), i, |live|);
    }
  }

  /** A hash map whose buckets are array dictionaries (ChainedHashDictionary.java). */
  class ChainedHashDictionary<K(==, !new), V(!new)> {
    /** `Object.hashCode` of the keys. */
    const hashCode: K -> Int32
    var chains: array<Chain<K, V>>
    var tableSize: nat
    var pairsSize: nat
    var resizeCounter: nat
    var maxPairsSize: nat
    /** The bindings of the dictionary; `None` is the null key. */
    ghost var Contents: map<Option<K>, V>

    ghost predicate Valid()
      reads this, chains
    {
      && resizeCounter < |PRIMES|
      && tableSize == PRIMES[resizeCounter] == chains.Length
      && maxPairsSize == MaxPairs(tableSize)
      && pairsSize == |Contents| <= maxPairsSize
      && Hashed(hashCode, chains[..], Contents)
    }

    constructor (hashCode: K -> Int32)
      ensures Valid() && fresh(chains) && this.hashCode == hashCode
      ensures Contents == map[]
      ensures tableSize == INITIAL_CAPACITY && pairsSize == 0 && maxPairsSize == 5
    {
      this.hashCode := hashCode;
      chains := new Chain<K, V>[INITIAL_CAPACITY](_ => None);
      tableSize := INITIAL_CAPACITY;
      pairsSize := 0;
      resizeCounter := 0;
      maxPairsSize := 5;
      Contents := map[];
      new;
      HashedEmpty<K, V>(hashCode, INITIAL_CAPACITY);
      assert chains[..] == seq(INITIAL_CAPACITY, _ => None);
    }

    /** The value bound to `key`, or NoSuchKey whether its bucket is null or lacks it. */
    method Get(key: Option<K>) returns (r: Result<V>)
      requires Valid()
      ensures key in Contents ==> r == Success(Contents[key])
      ensures key !in Contents ==> r == Failure(NoSuchKey)
    {
      var hash := Bucket(hashCode, key, tableSize);
      HashedLookup(hashCode, chains[..], Contents, key);
      if chains[hash] != None {
        return AD.Lookup(chains[hash].value, key);
      }
      return Failure(NoSuchKey);
    }

    /**
     * Binds `key` to `value`, growing the table first when it has reached its
     * threshold; a null bucket gets a fresh array dictionary, and the count
     * rises only for a new key.
     */
    method Put(key: Option<K>, value: V)
      requires Valid() && |Contents| < LAST_THRESHOLD
      modifies this, chains
      ensures Valid() && (chains == old(chains) || fresh(chains))
      ensures Contents == old(Contents)[key := value]
    {
      CheckResize();
      var added := PutInto(hashCode, chains, Contents, key, value);
      if added {
        pairsSize := pairsSize + 1;
      }
      Contents := Contents[key := value];
    }

    /** Unbinds `key` and returns its value, or throws NoSuchKey whether its bucket is null or lacks it. */
    method Remove(key: Option<K>) returns (r: Result<V>)
      requires Valid()
      modifies chains, this
      ensures Valid() && chains == old(chains)
      ensures key in old(Contents) ==> r == Success(old(Contents)[key]) && Contents == Without(old(Contents), key)
      ensures key !in old(Contents) ==> r == Failure(NoSuchKey) && Contents == old(Contents)
    {
      var hash := Bucket(hashCode, key, tableSize);
      if chains[hash] != None {
        var found;
        r, found := RemoveFrom(hashCode, chains, Contents, key);
        if found {
          pairsSize := pairsSize - 1;
        }
        Contents := Without(Contents, key);
      } else {
        HashedLookup(hashCode, chains[..], Contents, key);
        r := Failure(NoSuchKey);
      }
    }

    /** Whether `key` is bound; never throws. */
    method ContainsKey(key: Option<K>) returns (b: bool)
      requires Valid()
      ensures b <==> key in Contents
    {
      var hash := Bucket(hashCode, key, tableSize);
      HashedLookup(hashCode, chains[..], Contents, key);
      if chains[hash] != None {
        b := AD.FindKey(chains[hash].value, key) != -1;
      } else {
        b := false;
      }
    }

    /** The number of bound keys. */
    method Size() returns (n: nat)
      requires Valid()
      ensures n == |Contents|
    {
      n := pairsSize;
    }

    /**
     * Grows the table to the next size of PRIMES once the entry count has
     * reached the threshold, rehashing every pair of every bucket, in bucket
     * order, into fresh buckets and recounting the entries as it goes.
     */
    method CheckResize()
      requires Valid() && |Contents| < LAST_THRESHOLD
      modifies this
      ensures Valid() && (chains == old(chains) || fresh(chains))
      ensures Contents == old(Contents)
      ensures pairsSize < maxPairsSize
      ensures old(pairsSize) < old(maxPairsSize) ==> resizeCounter == old(resizeCounter) && chains == old(chains)
      ensures old(pairsSize) >= old(maxPairsSize) ==> resizeCounter == old(resizeCounter) + 1 && fresh(chains)
    {
      if pairsSize >= maxPairsSize {
        ThresholdsIncrease();
        resizeCounter := resizeCounter + 1;
        tableSize := PRIMES[resizeCounter];
        maxPairsSize := MaxPairs(tableSize);
        var newChains := new Chain<K, V>[tableSize](_ => None);
        pairsSize := Rehash(hashCode, chains, newChains, Contents);
        chains := newChains;
      }
    }

    /** An iterator over the bindings, bucket by bucket and in stored order within a bucket. */
    method Iterator() returns (it: ChainedIterator<K, V>)
      requires Valid()
      ensures fresh(it) && it.Valid() && it.chains == chains
      ensures it.Remaining() == Flatten(chains[..])
      ensures AD.DistinctKeys(it.Remaining()) && AD.AsMap(it.Remaining()) == Contents
    {
      FlattenIsContents(hashCode, chains[..], Contents);
      it := new ChainedIterator(chains);
    }
  }

  /** Unfolding Flatten at bucket `i`. */
  lemma FlattenAt<K, V>(chains: seq<Chain<K, V>>, i: nat)
    requires i < |chains|
    ensures Flatten(chains[i..]) == Pairs(chains[i]) + Flatten(chains[i + 1..])
  {
    assert chains[i..][1..] == chains[i + 1..];
  }

  /**
   * Where an iterator over `chains` stands: at bucket `index`, whose pairs
   * `current` the inner iterator walks, at `position` in them.
   */
  datatype Cursor<K, V> = Cursor(index: nat, current: seq<AD.Pair<Option<K>, V>>, position: nat)

  /** A cursor that can yield: past the end, or inside a bucket with pairs left. */
  ghost predicate Ready<K, V>(chains: seq<Chain<K, V>>, c: Cursor<K, V>) {
    && c.index <= |chains|
    && (c.index < |chains| ==> chains[c.index] == Some(c.current) && c.position < |c.current|)
  }

  /** What a ready cursor has still to yield. */
  function CursorRemaining<K, V>(chains: seq<Chain<K, V>>, c: Cursor<K, V>): seq<AD.Pair<Option<K>, V>> {
    if c.index < |chains| && c.position <= |c.current| then c.current[c.position..] + Flatten(chains[c.index + 1..])
    else []
  }

  /** `findNonNullIndex` as written: the first bucket from `i` on that is not null. */
  function SkipNull<K, V>(chains: seq<Chain<K, V>>, i: nat): (j: nat)
    requires i <= |chains|
    ensures i <= j <= |chains|
    ensures j < |chains| ==> chains[j].Some?
    decreases |chains| - i
  {
    if i < |chains| && chains[i] == None then SkipNull(chains, i + 1) else i
  }

  /** The cursor at bucket `i`, starting its iterator when there is one. */
  function CursorAt<K, V>(chains: seq<Chain<K, V>>, i: nat, fallback: Cursor<K, V>): Cursor<K, V>
    requires i <= |chains| && (i < |chains| ==> chains[i].Some?)
  {
    if i < |chains| then Cursor(i, chains[i].value, 0) else fallback.(index := i)
  }

  /** The constructor of `ChainedIterator` as written. */
  function StartAsWritten<K, V>(chains: seq<Chain<K, V>>): Cursor<K, V> {
    CursorAt(chains, SkipNull(chains, 0), Cursor(0, [], 0))
  }

  /**
   * `next` as written: throws unless both the outer and the inner iterator have
   * a next element; after the last pair of a bucket it moves on to the next
   * bucket that is not null, whether or not that bucket has pairs.
   */
  function NextAsWritten<K, V>(chains: seq<Chain<K, V>>, c: Cursor<K, V>): (Result<AD.Pair<Option<K>, V>>, Cursor<K, V>)
    requires c.index <= |chains|
  {
    if !(c.index < |chains|) || !(c.position < |c.current|) then (Failure(NoSuchElement), c)
    else
      var temp := c.current[c.position];
      var c' := c.(position := c.position + 1);
      if c'.position < |c'.current| then (Success(temp), c')
      else (Success(temp), CursorAt(chains, SkipNull(chains, c.index + 1), c'))
  }

  /** The results of up to `fuel` calls of `next` on the iterator as written, up to and including a first failure. */
  function RunAsWritten<K, V>(chains: seq<Chain<K, V>>, c: Cursor<K, V>, fuel: nat): seq<Result<AD.Pair<Option<K>, V>>>
    requires c.index <= |chains|
    decreases fuel
  {
    if fuel == 0 then []
    else
      var (r, c') := NextAsWritten(chains, c);
      if r.Failure? then [r]
      else assert c'.index <= |chains|; [r] + RunAsWritten(chains, c', fuel - 1)
  }

  /** Each pair of `s` as a successful `next`. */
  function Successes<T>(s: seq<T>): (r: seq<Result<T>>)
    ensures |r| == |s| && forall m :: 0 <= m < |s| ==> r[m] == Success(s[m])
  {
    if s == [] then [] else [Success(s[0])] + Successes(s[1..])
  }

  /** No bucket is an array dictionary that has been emptied. */
  ghost predicate NoEmptiedBucket<K, V>(chains: seq<Chain<K, V>>) {
    forall i :: 0 <= i < |chains| ==> chains[i] != Some([])
  }

  /** Skipping null buckets skips nothing that would be yielded. */
  lemma {:induction false} SkipNullFlatten<K, V>(chains: seq<Chain<K, V>>, i: nat)
    requires i <= |chains|
    ensures Flatten(chains[SkipNull(chains, i)..]) == Flatten(chains[i..])
    decreases |chains| - i
  {
    if i < |chains| && chains[i] == None {
      SkipNullFlatten(chains, i + 1);
      FlattenAt(chains, i);
    }
  }

  /** Moving to bucket `i` found by skipping gives a ready cursor that still has `Flatten(chains[i..])` to yield. */
  lemma CursorAtRemaining<K, V>(chains: seq<Chain<K, V>>, i: nat, fallback: Cursor<K, V>)
    requires i <= |chains| && (i < |chains| ==> chains[i].Some? && chains[i].value != [])
    ensures Ready(chains, CursorAt(chains, i, fallback))
    ensures CursorRemaining(chains, CursorAt(chains, i, fallback)) == Flatten(chains[i..])
  {
    if i < |chains| {
      FlattenAt(chains, i);
    } else {
      assert chains[i..] == [];
    }
  }

  /** Dropping the first element of a concatenation whose left part is not empty. */
  lemma DropFirst<T>(s: seq<T>, t: seq<T>)
    requires s != []
    ensures (s + t)[0] == s[0] && (s + t)[1..] == s[1..] + t
  {
    assert (s + t)[1..] == s[1..] + t;
  }

  /** Inside a bucket, `next` as written yields the pair at the cursor and steps over it. */
  lemma NextWithinBucket<K, V>(chains: seq<Chain<K, V>>, c: Cursor<K, V>)
    requires Ready(chains, c) && c.index < |chains| && c.position + 1 < |c.current|
    ensures var c' := c.(position := c.position + 1);
            && NextAsWritten(chains, c) == (Success(CursorRemaining(chains, c)[0]), c')
            && Ready(chains, c') && CursorRemaining(chains, c') == CursorRemaining(chains, c)[1..]
  {
    var rest := Flatten(chains[c.index + 1..]);
    DropFirst(c.current[c.position..], rest);
    assert c.current[c.position..][1..] == c.current[c.position + 1..];
  }

  /** At the last pair of a bucket, `next` as written yields it and moves to the next bucket that is not null. */
  lemma NextAtBucketEnd<K, V>(chains: seq<Chain<K, V>>, c: Cursor<K, V>)
    requires NoEmptiedBucket(chains) && Ready(chains, c) && c.index < |chains| && c.position + 1 == |c.current|
    ensures var c' := CursorAt(chains, SkipNull(chains, c.index + 1), c.(position := c.position + 1));
            && NextAsWritten(chains, c) == (Success(CursorRemaining(chains, c)[0]), c')
            && Ready(chains, c') && CursorRemaining(chains, c') == CursorRemaining(chains, c)[1..]
  {
    var i := SkipNull(chains, c.index + 1);
    var rest := Flatten(chains[c.index + 1..]);
    DropFirst(c.current[c.position..], rest);
    assert c.current[c.position..][1..] == [];
    SkipNullFlatten(chains, c.index + 1);
    CursorAtRemaining(chains, i, c.(position := c.position + 1));
  }

  /** With no emptied bucket, `next` as written yields the first remaining pair and keeps the cursor ready. */
  lemma NextAsWrittenStep<K, V>(chains: seq<Chain<K, V>>, c: Cursor<K, V>)
    requires NoEmptiedBucket(chains) && Ready(chains, c) && CursorRemaining(chains, c) != []
    ensures var (r, c') := NextAsWritten(chains, c);
            && r == Success(CursorRemaining(chains, c)[0])
            && Ready(chains, c') && CursorRemaining(chains, c') == CursorRemaining(chains, c)[1..]
  {
    if c.position + 1 < |c.current| {
      NextWithinBucket(chains, c);
    } else {
      NextAtBucketEnd(chains, c);
    }
  }

  /** With no emptied bucket, the iterator as written yields everything a ready cursor has left. */
  lemma {:induction false} RunAsWrittenDrains<K, V>(chains: seq<Chain<K, V>>, c: Cursor<K, V>)
    requires NoEmptiedBucket(chains) && Ready(chains, c)
    ensures RunAsWritten(chains, c, |CursorRemaining(chains, c)|) == Successes(CursorRemaining(chains, c))
    decreases |CursorRemaining(chains, c)|
  {
    var rest := CursorRemaining(chains, c);
    if rest != [] {
      NextAsWrittenStep(chains, c);
      var (r, c') := NextAsWritten(chains, c);
      RunAsWrittenDrains(chains, c');
    }
  }

  /**
   * With no emptied bucket, the iterator as written stops after what a ready
   * cursor has left: the call after the last pair throws NoSuchElement.
   */
  lemma {:induction false} RunAsWrittenStops<K, V>(chains: seq<Chain<K, V>>, c: Cursor<K, V>)
    requires NoEmptiedBucket(chains) && Ready(chains, c)
    ensures RunAsWritten(chains, c, |CursorRemaining(chains, c)| + 1) == Successes(CursorRemaining(chains, c)) + [Failure(NoSuchElement)]
    decreases |CursorRemaining(chains, c)|
  {
    var rest := CursorRemaining(chains, c);
    if rest != [] {
      NextAsWrittenStep(chains, c);
      var (r, c') := NextAsWritten(chains, c);
      RunAsWrittenStops(chains, c');
      assert Successes(rest) == [Success(rest[0])] + Successes(rest[1..]);
    }
  }

  /**
   * As long as no bucket has been emptied, the iterator as written yields every
   * binding of the table once, and the call after the last one throws NoSuchElement.
   */
  lemma IterationAsWritten<K, V>(chains: seq<Chain<K, V>>)
    requires NoEmptiedBucket(chains)
    ensures RunAsWritten(chains, StartAsWritten(chains), |Flatten(chains)|) == Successes(Flatten(chains))
    ensures RunAsWritten(chains, StartAsWritten(chains), |Flatten(chains)| + 1) == Successes(Flatten(chains)) + [Failure(NoSuchElement)]
  {
    SkipNullFlatten(chains, 0);
    CursorAtRemaining(chains, SkipNull(chains, 0), Cursor(0, [], 0));
    assert chains[0..] == chains;
    RunAsWrittenDrains(chains, StartAsWritten(chains));
    RunAsWrittenStops(chains, StartAsWritten(chains));
  }

  /**
   * An emptied bucket before a binding: `hasNext` is true, yet the first
   * `next` throws, and the binding is never yielded.
   */
  lemma EmptiedBucketStopsIteration<K, V>(p: AD.Pair<Option<K>, V>)
    ensures var chains: seq<Chain<K, V>> := [Some([]), Some([p])];
            var c := StartAsWritten(chains);
            && Flatten(chains) == [p]
            && c.index < |chains|
            && RunAsWritten(chains, c, 1) == [Failure(NoSuchElement)]
  {
    var chains: seq<Chain<K, V>> := [Some([]), Some([p])];
    assert chains[1..][1..] == [];
    assert Flatten(chains[1..]) == [p];
    assert SkipNull(chains, 0) == 0;
    var c := StartAsWritten(chains);
    assert c == Cursor(0, [], 0);
    assert NextAsWritten(chains, c) == (Failure(NoSuchElement), c);
  }

  /**
   * The iterator over a table (ChainedHashDictionary.java), with the search for
   * the next bucket skipping emptied buckets as well as null ones.
   */
  class ChainedIterator<K(==), V> {
    const chains: array<Chain<K, V>>
    var index: nat
    /** The pairs of bucket `index`, walked by the inner iterator. */
    var current: seq<AD.Pair<Option<K>, V>>
    var position: nat

    ghost predicate Valid()
      reads this, chains
    {
      Ready(chains[..], Cursor(index, current, position))
    }

    /** What is still to be yielded. */
    ghost function Remaining(): seq<AD.Pair<Option<K>, V>>
      reads this, chains
    {
      CursorRemaining(chains[..], Cursor(index, current, position))
    }

    constructor (chains: array<Chain<K, V>>)
      ensures Valid() && this.chains == chains
      ensures Remaining() == Flatten(chains[..])
    {
      this.chains := chains;
      index := 0;
      current := [];
      position := 0;
      new;
      Seek();
      assert chains[..][0..] == chains[..];
    }

    /** Whether `next` has something to yield. */
    method HasNext() returns (b: bool)
      requires Valid()
      ensures b <==> Remaining() != []
    {
      b := index < chains.Length;
    }

    /** The next binding, or NoSuchElement once everything has been yielded. */
    method Next() returns (r: Result<AD.Pair<Option<K>, V>>)
      requires Valid()
      modifies this
      ensures Valid()
      ensures old(Remaining()) == [] ==> r == Failure(NoSuchElement) && Remaining() == []
      ensures old(Remaining()) != [] ==> r == Success(old(Remaining())[0]) && Remaining() == old(Remaining())[1..]
    {
      if !(index < chains.Length) || !(position < |current|) {
        return Failure(NoSuchElement);
      }
      var temp := current[position];
      DropFirst(current[position..], Flatten(chains[..][index + 1..]));
      assert current[position..][1..] == current[position + 1..];
      position := position + 1;
      if !(position < |current|) {
        index := index + 1;
        Seek();
      }
      return Success(temp);
    }

    /** Moves to the first bucket from `index` on that holds a pair and starts its iterator. */
    method Seek()
      requires index <= chains.Length
      modifies this
      ensures Valid() && old(index) <= index
      ensures Remaining() == Flatten(chains[..][old(index)..])
    {
      FindNonEmptyIndex();
      if index < chains.Length {
        current := chains[index].value;
        position := 0;
      }
      CursorAtRemaining(chains[..], index, Cursor(index, current, position));
      assert chains[..][index..] == chains[index..];
    }

    /** Moves `index` to the first bucket from `index` on that holds a pair, or to the end. */
    method FindNonEmptyIndex()
      requires index <= chains.Length
      modifies this
      ensures old(index) <= index <= chains.Length
      ensures index < chains.Length ==> chains[index].Some? && chains[index].value != []
      ensures Flatten(chains[index..]) == Flatten(chains[old(index)..])
      ensures current == old(current) && position == old(position)
    {
      while index < chains.Length && (chains[index] == None || chains[index].value == [])
        invariant old(index) <= index <= chains.Length
        invariant Flatten(chains[index..]) == Flatten(chains[old(index)..])
        invariant current == old(current) && position == old(position)
      {
        FlattenAt(chains[..], index);
        assert chains[..][index..] == chains[index..] && chains[..][index + 1..] == chains[index + 1..];
        index := index + 1;
      }
    }
  }
}

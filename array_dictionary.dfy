/**
 * The flat dictionary used as each hash bucket: key/value pairs stored in
 * `pairs[0..size)` of a growable array, found by linear scan, appended on
 * insert, shifted left on removal, doubled in capacity when full.
 */
module ArrayDictionaries {
  import opened Wrappers

  /** One stored binding. */
  datatype Pair<K, V> = Pair(key: K, value: V)

  /** Capacity of a fresh dictionary's array. */
  const INITIAL_CAPACITY: nat := 10

  /** The key of the `i`-th pair of `s`. */
  ghost function KeyAt<K, V>(s: seq<Pair<K, V>>, i: nat): K
    requires i < |s|
  {
    s[i].key
  }

  /**
   * No two pairs of `s` have the same key. (Stated through KeyAt, so that the
   * solver compares two pairs only where a proof asks about their keys.)
   */
  ghost predicate DistinctKeys<K, V>(s: seq<Pair<K, V>>) {
    forall i, j :: 0 <= i < j < |s| ==> KeyAt(s, i) != KeyAt(s, j)
  }

  /**
   * The corrected shift of `remove`: moves `a[index + 1..size]` one slot to the
   * left and clears the slot the last live element leaves.
   */
  method ShiftLeft<T>(a: array<Option<T>>, index: nat, size: nat)
    requires index < size <= a.Length
    modifies a
    ensures forall m :: 0 <= m < index ==> a[m] == old(a[m])
    ensures forall m :: index <= m < size - 1 ==> a[m] == old(a[m + 1])
    ensures a[size - 1] == None
    ensures forall m :: size <= m < a.Length ==> a[m] == old(a[m])
  {
    var j := index;
    while j < size - 1
      invariant index <= j <= size - 1
      invariant forall m :: 0 <= m < index ==> a[m] == old(a[m])
      invariant forall m :: index <= m < j ==> a[m] == old(a[m + 1])
      invariant forall m :: j <= m < a.Length ==> a[m] == old(a[m])
      modifies a
    {
      a[j] := a[j + 1];
      j := j + 1;
    }
    a[size - 1] := None;
  }

  /** Two different pairs of distinct-key pairs have different keys. */
  lemma DistinctKeysAt<K, V>(s: seq<Pair<K, V>>, i: nat, j: nat)
    requires DistinctKeys(s) && i < |s| && j < |s| && i != j
    ensures s[i].key != s[j].key
  {
    if i < j {
      assert KeyAt(s, i) != KeyAt(s, j);
    } else {
      assert KeyAt(s, j) != KeyAt(s, i);
    }
  }

  /** Pairs with the same keys, position by position, as distinct-key pairs have distinct keys. */
  lemma DistinctKeysSameKeys<K, V>(s: seq<Pair<K, V>>, t: seq<Pair<K, V>>)
    requires DistinctKeys(s) && |s| == |t|
    requires forall m :: 0 <= m < |s| ==> s[m].key == t[m].key
    ensures DistinctKeys(t)
  {
    forall i, j | 0 <= i < j < |t|
      ensures KeyAt(t, i) != KeyAt(t, j)
    {
      DistinctKeysAt(s, i, j);
    }
  }

  /** Joining distinct-key pairs whose keys do not meet gives distinct-key pairs. */
  lemma DistinctKeysConcat<K, V>(s: seq<Pair<K, V>>, t: seq<Pair<K, V>>)
    requires DistinctKeys(s) && DistinctKeys(t)
    requires forall m, n :: 0 <= m < |s| && 0 <= n < |t| ==> s[m].key != t[n].key
    ensures DistinctKeys(s + t)
  {
    var u := s + t;
    forall i, j | 0 <= i < j < |u|
      ensures KeyAt(u, i) != KeyAt(u, j)
    {
      if j < |s| {
        DistinctKeysAt(s, i, j);
      } else if |s| <= i {
        DistinctKeysAt(t, i - |s|, j - |s|);
      }
    }
  }

  /** Dropping the pair at index `i` of distinct-key pairs leaves distinct-key pairs. */
  lemma DistinctKeysRemove<K, V>(s: seq<Pair<K, V>>, i: nat)
    requires DistinctKeys(s) && i < |s|
    ensures DistinctKeys(s[..i] + s[i + 1..])
  {
    var u := s[..i] + s[i + 1..];
    forall a, b | 0 <= a < b < |u|
      ensures KeyAt(u, a) != KeyAt(u, b)
    {
      var a' := if a < i then a else a + 1;
      var b' := if b < i then b else b + 1;
      assert u[a] == s[a'] && u[b] == s[b'];
      DistinctKeysAt(s, a', b');
    }
  }

  /** The pairs after the first of distinct-key pairs have distinct keys, none of them the first key. */
  lemma DistinctKeysTail<K, V>(s: seq<Pair<K, V>>)
    requires DistinctKeys(s) && s != []
    ensures DistinctKeys(s[1..]) && FindKey(s[1..], s[0].key) == -1
  {
    forall m | 0 <= m < |s| - 1
      ensures s[1..][m].key != s[0].key
    {
      DistinctKeysAt(s, 0, m + 1);
    }
    DistinctKeysRemove(s, 0);
    assert s[..0] + s[1..] == s[1..];
  }

  /** Index of the first pair of `s` whose key is `key`, or -1 when there is none. */
  function FindKey<K(==), V>(s: seq<Pair<K, V>>, key: K): (r: int)
    ensures -1 <= r < |s|
    ensures 0 <= r ==> s[r].key == key && forall j :: 0 <= j < r ==> s[j].key != key
    ensures r == -1 ==> forall j :: 0 <= j < |s| ==> s[j].key != key
  {
    if |s| == 0 then -1
    else if s[0].key == key then 0
    else
      var r := FindKey(s[1..], key);
      if r == -1 then -1 else r + 1
  }

  /** The bindings `s` stands for: each key is bound to the value of its first pair. */
  ghost function AsMap<K, V>(s: seq<Pair<K, V>>): map<K, V>
    decreases |s|
  {
    if s == [] then map[] else AsMap(s[1..])[s[0].key := s[0].value]
  }

  /** A key is bound exactly when some pair holds it, to the value of its first pair. */
  lemma {:induction false} AsMapLookup<K, V>(s: seq<Pair<K, V>>, k: K)
    ensures k in AsMap(s) <==> FindKey(s, k) >= 0
    ensures k in AsMap(s) ==> AsMap(s)[k] == s[FindKey(s, k)].value
    decreases |s|
  {
    if s != [] {
      AsMapLookup(s[1..], k);
    }
  }

  /** With distinct keys, the pair at index `j` is the first pair of its key. */
  lemma FindKeyDistinct<K, V>(s: seq<Pair<K, V>>, j: nat)
    requires DistinctKeys(s) && j < |s|
    ensures FindKey(s, s[j].key) == j
  {
    forall m | 0 <= m < |s| && m != j
      ensures s[m].key != s[j].key
    {
      DistinctKeysAt(s, m, j);
    }
  }

  /** With distinct keys, every pair of `s` is one of its bindings. */
  lemma AsMapHolds<K, V>(s: seq<Pair<K, V>>, j: nat)
    requires DistinctKeys(s) && j < |s|
    ensures s[j].key in AsMap(s) && AsMap(s)[s[j].key] == s[j].value
  {
    FindKeyDistinct(s, j);
    AsMapLookup(s, s[j].key);
  }

  /** Appending a pair with a new key binds that key and changes nothing else. */
  lemma {:induction false} AsMapAppend<K, V>(s: seq<Pair<K, V>>, p: Pair<K, V>)
    requires FindKey(s, p.key) == -1
    ensures AsMap(s + [p]) == AsMap(s)[p.key := p.value]
    decreases |s|
  {
    if s == [] {
      assert (s + [p])[1..] == [];
    } else {
      assert (s + [p])[1..] == s[1..] + [p];
      AsMapAppend(s[1..], p);
    }
  }

  /** Overwriting the value of the first pair of a key rebinds that key and nothing else. */
  lemma {:induction false} AsMapOverwrite<K, V>(s: seq<Pair<K, V>>, i: nat, v: V)
    requires i < |s| && FindKey(s, s[i].key) == i
    ensures AsMap(s[i := Pair(s[i].key, v)]) == AsMap(s)[s[i].key := v]
    decreases i
  {
    var t := s[i := Pair(s[i].key, v)];
    if i == 0 {
      assert t[1..] == s[1..];
    } else {
      assert t[1..] == s[1..][i - 1 := Pair(s[i].key, v)];
      AsMapOverwrite(s[1..], i - 1, v);
    }
  }

  /** Removing the pair at index `i` from distinct pairs unbinds exactly its key. */
  lemma {:induction false} AsMapRemove<K, V>(s: seq<Pair<K, V>>, i: nat)
    requires DistinctKeys(s) && i < |s|
    ensures DistinctKeys(s[..i] + s[i + 1..])
    ensures AsMap(s[..i] + s[i + 1..]) == AsMap(s) - {s[i].key}
    decreases i
  {
    var t := s[..i] + s[i + 1..];
    DistinctKeysRemove(s, i);
    DistinctKeysTail(s);
    if i == 0 {
      assert t == s[1..];
      AsMapLookup(s[1..], s[0].key);
    } else {
      assert t[1..] == s[1..][..i - 1] + s[1..][i..];
      AsMapRemove(s[1..], i - 1);
    }
  }

  /** With distinct keys, the number of bindings is the number of pairs. */
  lemma {:induction false} AsMapSize<K, V>(s: seq<Pair<K, V>>)
    requires DistinctKeys(s)
    ensures |AsMap(s)| == |s|
    decreases |s|
  {
    if s != [] {
      DistinctKeysTail(s);
      AsMapSize(s[1..]);
      AsMapLookup(s[1..], s[0].key);
    }
  }

  /** Joining pairs whose keys are disjoint keeps the keys distinct and joins the bindings. */
  lemma {:induction false} AsMapConcat<K, V>(s: seq<Pair<K, V>>, t: seq<Pair<K, V>>)
    requires DistinctKeys(s) && DistinctKeys(t)
    requires forall m, n :: 0 <= m < |s| && 0 <= n < |t| ==> s[m].key != t[n].key
    ensures DistinctKeys(s + t)
    ensures AsMap(s + t) == AsMap(s) + AsMap(t)
    decreases |s|
  {
    DistinctKeysConcat(s, t);
    if s == [] {
      assert s + t == t;
    } else {
      assert (s + t)[1..] == s[1..] + t;
      DistinctKeysTail(s);
      AsMapConcat(s[1..], t);
      AsMapLookup(t, s[0].key);
    }
  }

  /** What `get` answers on pairs `s`: the value of the first pair of `key`, or NoSuchKey. */
  function Lookup<K(==), V>(s: seq<Pair<K, V>>, key: K): Result<V> {
    var i := FindKey(s, key);
    if i == -1 then Failure(NoSuchKey) else Success(s[i].value)
  }

  /** The pairs after `put`: the first pair of `key` rewritten in place, or a new pair appended. */
  function PutPair<K(==), V>(s: seq<Pair<K, V>>, key: K, value: V): seq<Pair<K, V>> {
    var i := FindKey(s, key);
    if i == -1 then s + [Pair(key, value)] else s[i := Pair(key, value)]
  }

  /** The pairs after `remove`: the first pair of `key` dropped, the later ones kept in order. */
  function RemovePair<K(==), V>(s: seq<Pair<K, V>>, key: K): seq<Pair<K, V>> {
    var i := FindKey(s, key);
    if i == -1 then s else s[..i] + s[i + 1..]
  }

  /** Lookup on pairs is lookup in the bindings they stand for. */
  lemma LookupIsMap<K, V>(s: seq<Pair<K, V>>, key: K)
    ensures key in AsMap(s) ==> Lookup(s, key) == Success(AsMap(s)[key])
    ensures key !in AsMap(s) ==> Lookup(s, key) == Failure(NoSuchKey)
  {
    AsMapLookup(s, key);
  }

  /**
   * Putting keeps the keys distinct, rebinds `key` and nothing else, and adds
   * a pair exactly when `key` was unbound.
   */
  lemma PutPairIsMap<K, V>(s: seq<Pair<K, V>>, key: K, value: V)
    requires DistinctKeys(s)
    ensures DistinctKeys(PutPair(s, key, value))
    ensures AsMap(PutPair(s, key, value)) == AsMap(s)[key := value]
    ensures |PutPair(s, key, value)| == if key in AsMap(s) then |s| else |s| + 1
  {
    AsMapLookup(s, key);
    var i := FindKey(s, key);
    if i == -1 {
      AsMapAppend(s, Pair(key, value));
      DistinctKeysConcat(s, [Pair(key, value)]);
    } else {
      AsMapOverwrite(s, i, value);
      DistinctKeysSameKeys(s, s[i := Pair(key, value)]);
    }
  }

  /**
   * Removing keeps the keys distinct, unbinds `key` and nothing else, and
   * drops a pair exactly when `key` was bound.
   */
  lemma RemovePairIsMap<K, V>(s: seq<Pair<K, V>>, key: K)
    requires DistinctKeys(s)
    ensures DistinctKeys(RemovePair(s, key))
    ensures AsMap(RemovePair(s, key)) == AsMap(s) - {key}
    ensures |RemovePair(s, key)| == if key in AsMap(s) then |s| - 1 else |s|
  {
    AsMapLookup(s, key);
    var i := FindKey(s, key);
    if i == -1 {
      assert AsMap(s) - {key} == AsMap(s);
    } else {
      AsMapRemove(s, i);
    }
  }

  /**
   * The shift loop of `remove` as written: for every `index` from the removed
   * slot up to `size - 1` it copies `a[index + 1]` into `a[index]`, so its last
   * step reads `a[size]`, which lies outside the array when the array is full.
   */
  function ShiftLeftAsWritten<T>(a: seq<T>, index: nat, size: nat): Result<seq<T>>
    decreases size - index
  {
    if index >= size then Success(a)
    else if index + 1 >= |a| then Failure(IndexOutOfBounds)
    else ShiftLeftAsWritten(a[index := a[index + 1]], index + 1, size)
  }

  /** Removing from a full array throws, whichever slot is removed. */
  lemma {:induction false} RemoveOnFullArrayOverruns<T>(a: seq<T>, index: nat)
    requires index < |a|
    ensures ShiftLeftAsWritten(a, index, |a|) == Failure(IndexOutOfBounds)
    decreases |a| - index
  {
    if index + 1 < |a| {
      RemoveOnFullArrayOverruns(a[index := a[index + 1]], index + 1);
    }
  }

  /**
   * Below capacity the loop as written shifts `a[index + 1..size + 1]` down by
   * one and leaves `a[size]` in place: it copies the empty slot `a[size]` into
   * slot `size - 1`, which is what the corrected `Remove` writes explicitly.
   */
  lemma {:induction false} ShiftLeftAsWrittenBelowCapacity<T>(a: seq<T>, index: nat, size: nat)
    requires index <= size < |a|
    ensures ShiftLeftAsWritten(a, index, size) == Success(a[..index] + a[index + 1..size + 1] + a[size..])
    decreases size - index
  {
    if index < size {
      var a' := a[index := a[index + 1]];
      ShiftLeftAsWrittenBelowCapacity(a', index + 1, size);
      assert a'[..index + 1] + a'[index + 2..size + 1] + a'[size..]
          == a[..index] + a[index + 1..size + 1] + a[size..];
    } else {
      assert a[..index] + a[index + 1..size + 1] + a[size..] == a;
    }
  }

  /** An array of pairs with a live prefix `pairs[0..size)` (ArrayDictionary.java). */
  class ArrayDictionary<K(==), V> {
    var pairs: array<Option<Pair<K, V>>>
    var size: nat
    /** The live pairs, in stored order. */
    ghost var Contents: seq<Pair<K, V>>
    ghost var Repr: set<object>

    ghost predicate Valid()
      reads this, Repr
      ensures Valid() ==> this in Repr
    {
      && Repr == {this, pairs}
      && INITIAL_CAPACITY <= pairs.Length
      && size == |Contents| <= pairs.Length
      && (forall i :: 0 <= i < size ==> pairs[i] == Some(Contents[i]))
      && (forall i :: size <= i < pairs.Length ==> pairs[i] == None)
      && DistinctKeys(Contents)
    }

    /** The bindings the dictionary holds. */
    ghost function Map(): map<K, V>
      reads this
    {
      AsMap(Contents)
    }

    constructor ()
      ensures Valid() && fresh(Repr)
      ensures Contents == [] && pairs.Length == INITIAL_CAPACITY
    {
      pairs := new Option<Pair<K, V>>[INITIAL_CAPACITY](_ => None);
      size := 0;
      Contents := [];
      Repr := {this, pairs};
    }

    /** The value bound to `key`, or NoSuchKey. */
    method Get(key: K) returns (r: Result<V>)
      requires Valid()
      ensures r == Lookup(Contents, key)
      ensures key in Map() ==> r == Success(Map()[key])
      ensures key !in Map() ==> r == Failure(NoSuchKey)
    {
      AsMapLookup(Contents, key);
      var i := 0;
      while i < size
        invariant i <= size
        invariant forall j :: 0 <= j < i ==> Contents[j].key != key
      {
        var p := pairs[i].value;
        if p.key == key {
          return Success(p.value);
        }
        i := i + 1;
      }
      return Failure(NoSuchKey);
    }

    /** Binds `key` to `value`: overwrites in place, or appends a new pair. */
    method Put(key: K, value: V)
      requires Valid()
      modifies Repr
      ensures Valid() && fresh(Repr - old(Repr))
      ensures Contents == PutPair(old(Contents), key, value)
      ensures Map() == old(Map())[key := value]
    {
      PutPairIsMap(Contents, key, value);
      var index := IndexOf(key);
      if index == -1 {
        CheckResize();
        pairs[size] := Some(Pair(key, value));
        size := size + 1;
        Contents := Contents + [Pair(key, value)];
      } else {
        pairs[index] := Some(Pair(key, value));
        Contents := Contents[index := Pair(key, value)];
      }
    }

    /**
     * Unbinds `key` and returns its value, or throws NoSuchKey. The later pairs
     * move one slot left, keeping their order, and the freed slot is cleared.
     */
    method Remove(key: K) returns (r: Result<V>)
      requires Valid()
      modifies Repr
      ensures Valid() && Repr == old(Repr)
      ensures r == Lookup(old(Contents), key) && Contents == RemovePair(old(Contents), key)
      ensures key in old(Map()) ==> r == Success(old(Map())[key])
      ensures key !in old(Map()) ==> r == Failure(NoSuchKey)
      ensures Map() == old(Map()) - {key}
    {
      AsMapLookup(Contents, key);
      var index := IndexOf(key);
      if index == -1 {
        return Failure(NoSuchKey);
      }
      var temp := pairs[index].value.value;
      ghost var rest := Contents[..index] + Contents[index + 1..];
      ShiftLeft(pairs, index, size);
      assert forall m :: 0 <= m < size - 1 ==> pairs[m] == Some(rest[m]);
      AsMapRemove(Contents, index);
      size := size - 1;
      Contents := rest;
      return Success(temp);
    }

    /** Whether `key` is bound: `indexOf(key) != -1`. */
    method ContainsKey(key: K) returns (b: bool)
      requires Valid()
      ensures b <==> key in Map()
      ensures b <==> FindKey(Contents, key) != -1
    {
      AsMapLookup(Contents, key);
      var index := IndexOf(key);
      b := index != -1;
    }

    /** The number of pairs, which is the number of bound keys. */
    method Size() returns (n: nat)
      requires Valid()
      ensures n == |Contents| == |Map()|
    {
      AsMapSize(Contents);
      n := size;
    }

    /** Doubles the array when it is full, copying the live pairs unchanged. */
    method CheckResize()
      requires Valid()
      modifies this
      ensures Valid() && fresh(Repr - old(Repr))
      ensures Contents == old(Contents) && size == old(size)
      ensures size < pairs.Length
      ensures old(size) < old(pairs.Length) ==> pairs == old(pairs)
      ensures old(size) >= old(pairs.Length) ==> fresh(pairs) && pairs.Length == 2 * old(pairs.Length)
    {
      if size >= pairs.Length {
        var newPairs := new Option<Pair<K, V>>[pairs.Length * 2](_ => None);
        var i := 0;
        while i < size
          invariant i <= size
          invariant forall j :: 0 <= j < i ==> newPairs[j] == pairs[j]
          invariant forall j :: i <= j < newPairs.Length ==> newPairs[j] == None
          modifies newPairs
        {
          newPairs[i] := pairs[i];
          i := i + 1;
        }
        pairs := newPairs;
        Repr := {this, pairs};
      }
    }

    /** The index of the first pair whose key is `key`, or -1. */
    method IndexOf(key: K) returns (r: int)
      requires Valid()
      ensures r == FindKey(Contents, key)
      ensures -1 <= r < size
    {
      var i := 0;
      while i < size
        invariant i <= size
        invariant forall j :: 0 <= j < i ==> Contents[j].key != key
      {
        if pairs[i].value.key == key {
          return i;
        }
        i := i + 1;
      }
      return -1;
    }

    /** An iterator over the live pairs, in stored order. */
    method Iterator() returns (it: ArrayDictionaryIterator<K, V>)
      requires Valid()
      ensures fresh(it) && it.Valid()
      ensures it.pairs == pairs && it.index == 0 && it.Elements == Contents
    {
      it := new ArrayDictionaryIterator(pairs, size, Contents);
    }
  }

  /** Walks `pairs[0..size)` of a dictionary that is not modified meanwhile. */
  class ArrayDictionaryIterator<K, V> {
    const pairs: array<Option<Pair<K, V>>>
    const size: nat
    var index: nat
    /** The pairs this iterator walks over. */
    ghost const Elements: seq<Pair<K, V>>

    ghost predicate Valid()
      reads this, pairs
    {
      && index <= size == |Elements| <= pairs.Length
      && forall i :: 0 <= i < size ==> pairs[i] == Some(Elements[i])
    }

    /** What is still to be yielded. */
    ghost function Remaining(): seq<Pair<K, V>>
      reads this
      requires index <= |Elements|
    {
      Elements[index..]
    }

    constructor (pairs: array<Option<Pair<K, V>>>, size: nat, ghost elements: seq<Pair<K, V>>)
      requires size == |elements| <= pairs.Length
      requires forall i :: 0 <= i < size ==> pairs[i] == Some(elements[i])
      ensures Valid() && this.pairs == pairs && index == 0 && Elements == elements
    {
      this.pairs := pairs;
      this.size := size;
      this.index := 0;
      this.Elements := elements;
    }

    method HasNext() returns (b: bool)
      requires Valid()
      ensures b <==> Remaining() != []
    {
      b := index < size;
    }

    /** The next pair, or NoSuchElement past the end. */
    method Next() returns (r: Result<Pair<K, V>>)
      requires Valid()
      modifies this
      ensures Valid()
      ensures old(Remaining()) == [] ==> r == Failure(NoSuchElement) && index == old(index)
      ensures old(Remaining()) != [] ==> r == Success(old(Remaining())[0]) && Remaining() == old(Remaining())[1..]
      ensures index == if r.Success? then old(index) + 1 else old(index)
    {
      if index >= size {
        return Failure(NoSuchElement);
      }
      r := Success(pairs[index].value);
      index := index + 1;
    }
  }
}

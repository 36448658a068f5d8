/**
 * The hash set: a chained hash dictionary whose keys are the elements, each
 * bound to `true`. Elements are `Option<T>`, `None` being the null element,
 * which the dictionary accepts like any other key.
 */
module ChainedHashSets {
  import opened Wrappers
  import AD = ArrayDictionaries
  import CHD = ChainedHashDictionaries

  /** The keys of `s`, in order. */
  function KeysOf<K, V>(s: seq<AD.Pair<K, V>>): (r: seq<K>)
    ensures |r| == |s| && forall i :: 0 <= i < |s| ==> r[i] == s[i].key
  {
    seq(|s|, i requires 0 <= i < |s| => s[i].key)
  }

  /**
   * The keys of pairs with distinct keys are themselves distinct, and they are
   * exactly the keys the pairs bind.
   */
  lemma KeysOfBindings<K, V>(s: seq<AD.Pair<K, V>>)
    requires AD.DistinctKeys(s)
    ensures forall i, j :: 0 <= i < j < |s| ==> KeysOf(s)[i] != KeysOf(s)[j]
    ensures forall k :: k in KeysOf(s) <==> k in AD.AsMap(s)
  {
    forall i, j | 0 <= i < j < |s|
      ensures KeysOf(s)[i] != KeysOf(s)[j]
    {
      AD.DistinctKeysAt(s, i, j);
    }
    forall k
      ensures k in KeysOf(s) <==> k in AD.AsMap(s)
    {
      AD.AsMapLookup(s, k);
      var r := AD.FindKey(s, k);
      if r >= 0 {
        assert KeysOf(s)[r] == k;
      }
    }
  }

  /** Dropping the first pair drops the first key. */
  lemma KeysOfTail<K, V>(s: seq<AD.Pair<K, V>>)
    requires s != []
    ensures KeysOf(s[1..]) == KeysOf(s)[1..]
  {
  }

  class ChainedHashSet<T(==, !new)> {
    /** The dictionary holding the elements as its keys. */
    const dictionary: CHD.ChainedHashDictionary<T, bool>

    ghost predicate Valid()
      reads this, dictionary, dictionary.chains
    {
      dictionary.Valid()
    }

    /** The elements of the set. */
    ghost function Elements(): set<Option<T>>
      reads this, dictionary
    {
      dictionary.Contents.Keys
    }

    constructor (hashCode: T -> CHD.Int32)
      ensures Valid() && Elements() == {}
      ensures fresh(dictionary) && fresh(dictionary.chains)
    {
      dictionary := new CHD.ChainedHashDictionary(hashCode);
    }

    /** Adds `item`; adding an element already present changes nothing. */
    method Add(item: Option<T>)
      requires Valid() && |Elements()| < CHD.LAST_THRESHOLD
      modifies dictionary, dictionary.chains
      ensures Valid() && (dictionary.chains == old(dictionary.chains) || fresh(dictionary.chains))
      ensures Elements() == old(Elements()) + {item}
    {
      dictionary.Put(item, true);
    }

    /** Removes `item`, or throws NoSuchElement when it is absent. */
    method Remove(item: Option<T>) returns (r: Outcome)
      requires Valid()
      modifies dictionary, dictionary.chains
      ensures Valid() && dictionary.chains == old(dictionary.chains)
      ensures item in old(Elements()) ==> r == Pass && Elements() == old(Elements()) - {item}
      ensures item !in old(Elements()) ==> r == Fail(NoSuchElement) && Elements() == old(Elements())
    {
      var present := dictionary.ContainsKey(item);
      if present {
        var _ := dictionary.Remove(item);
        return Pass;
      } else {
        return Fail(NoSuchElement);
      }
    }

    /** Whether `item` is an element. */
    method Contains(item: Option<T>) returns (b: bool)
      requires Valid()
      ensures b <==> item in Elements()
    {
      b := dictionary.ContainsKey(item);
    }

    /** The number of elements. */
    method Size() returns (n: nat)
      requires Valid()
      ensures n == |Elements()|
    {
      n := dictionary.Size();
    }

    /** An iterator yielding every element exactly once. */
    method Iterator() returns (it: SetIterator<T>)
      requires Valid()
      ensures fresh(it) && fresh(it.iter) && it.Valid()
      ensures forall i, j :: 0 <= i < j < |it.Remaining()| ==> it.Remaining()[i] != it.Remaining()[j]
      ensures forall e :: e in it.Remaining() <==> e in Elements()
    {
      var inner := dictionary.Iterator();
      KeysOfBindings(inner.Remaining());
      it := new SetIterator(inner);
    }
  }

  /** Yields the keys of the dictionary iterator it wraps. */
  class SetIterator<T(==)> {
    const iter: CHD.ChainedIterator<T, bool>

    ghost predicate Valid()
      reads this, iter, iter.chains
    {
      iter.Valid()
    }

    /** The elements still to be yielded. */
    ghost function Remaining(): seq<Option<T>>
      reads this, iter, iter.chains
    {
      KeysOf(iter.Remaining())
    }

    constructor (iter: CHD.ChainedIterator<T, bool>)
      requires iter.Valid()
      ensures Valid() && this.iter == iter
      ensures Remaining() == KeysOf(iter.Remaining())
    {
      this.iter := iter;
    }

    /** Whether `next` has something to yield. */
    method HasNext() returns (b: bool)
      requires Valid()
      ensures b <==> Remaining() != []
    {
      b := iter.HasNext();
    }

    /** The next element, or NoSuchElement once everything has been yielded. */
    method Next() returns (r: Result<Option<T>>)
      requires Valid()
      modifies iter
      ensures Valid()
      ensures old(Remaining()) == [] ==> r == Failure(NoSuchElement) && Remaining() == []
      ensures old(Remaining()) != [] ==> r == Success(old(Remaining())[0]) && Remaining() == old(Remaining())[1..]
    {
      ghost var before := iter.Remaining();
      var p := iter.Next();
      if p.Failure? {
        return Failure(p.error);
      }
      KeysOfTail(before);
      return Success(p.value.key);
    }
  }
}

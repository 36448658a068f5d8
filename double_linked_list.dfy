/**
 * The doubly linked list: nodes with a final datum and `prev`/`next` links,
 * `front` and `back` pointers and an element count. The ghost sequence
 * `Nodes` lists the live nodes front to back; the elements are their data.
 *
 * The behaviour after the list has been emptied by `remove` is kept as the
 * code has it: `front` and `back` then point to a fresh node holding null,
 * so an iterator over the emptied list yields that null once, while a list
 * that was never filled has null `front` and `back`, on which `remove`
 * dereferences null.
 */
module DoubleLinkedLists {
  import opened Wrappers

  class Node<T> {
    const data: Option<T>
    var prev: Node?<T>
    var next: Node?<T>

    constructor (prev: Node?<T>, data: Option<T>, next: Node?<T>)
      ensures this.prev == prev && this.data == data && this.next == next
    {
      this.prev := prev;
      this.data := data;
      this.next := next;
    }
  }

  /** The data of `nodes`, in order. */
  function Data<T>(nodes: seq<Node<T>>): (r: seq<Option<T>>)
    ensures |r| == |nodes| && forall i :: 0 <= i < |nodes| ==> r[i] == nodes[i].data
  {
    seq(|nodes|, i requires 0 <= i < |nodes| => nodes[i].data)
  }

  /** No node occurs twice in `nodes`. */
  ghost predicate Distinct<T>(nodes: seq<Node<T>>) {
    forall i, j :: 0 <= i < j < |nodes| ==> nodes[i] != nodes[j]
  }

  /** Each of `nodes` points by `next` to the following one, the last one to null. */
  ghost predicate NextLinked<T>(nodes: seq<Node<T>>)
    reads nodes
  {
    && (forall i :: 0 <= i < |nodes| - 1 ==> nodes[i].next == nodes[i + 1])
    && (nodes != [] ==> nodes[|nodes| - 1].next == null)
  }

  /** Each of `nodes` points by `prev` to the preceding one, the first one to null. */
  ghost predicate PrevLinked<T>(nodes: seq<Node<T>>)
    reads nodes
  {
    && (forall i :: 0 < i < |nodes| ==> nodes[i].prev == nodes[i - 1])
    && (nodes != [] ==> nodes[0].prev == null)
  }

  /** `nodes` are distinct and chained by `next`, the last one ending the chain. */
  ghost predicate Chained<T>(nodes: seq<Node<T>>)
    reads nodes
  {
    Distinct(nodes) && NextLinked(nodes)
  }

  /** `nodes` are chained by `next` and back by `prev`. */
  ghost predicate Linked<T>(nodes: seq<Node<T>>)
    reads nodes
  {
    Chained(nodes) && PrevLinked(nodes)
  }

  /** Where the elements of `s` sit once `n` is inserted at `i`. */
  lemma InsertAt<T>(s: seq<Node<T>>, i: nat, n: Node<T>)
    requires i <= |s|
    ensures |s[..i] + [n] + s[i..]| == |s| + 1 && (s[..i] + [n] + s[i..])[i] == n
    ensures forall j :: 0 <= j < i ==> (s[..i] + [n] + s[i..])[j] == s[j]
    ensures forall j :: i < j <= |s| ==> (s[..i] + [n] + s[i..])[j] == s[j - 1]
  {
  }

  lemma DistinctInsert<T>(s: seq<Node<T>>, i: nat, n: Node<T>)
    requires Distinct(s) && n !in s && i <= |s|
    ensures Distinct(s[..i] + [n] + s[i..])
  {
    var t := s[..i] + [n] + s[i..];
    forall j, k | 0 <= j < k < |t|
      ensures t[j] != t[k]
    {
      if j < i && k > i {
        assert t[k] == s[k - 1];
      } else if j > i {
        assert t[j] == s[j - 1] && t[k] == s[k - 1];
      } else if j == i {
        assert t[k] == s[k - 1];
      }
    }
  }

  lemma DistinctDelete<T>(s: seq<Node<T>>, i: nat)
    requires Distinct(s) && i < |s|
    ensures Distinct(s[..i] + s[i + 1..])
  {
    var t := s[..i] + s[i + 1..];
    forall j, k | 0 <= j < k < |t|
      ensures t[j] != t[k]
    {
      if j >= i {
        assert t[j] == s[j + 1] && t[k] == s[k + 1];
      } else if k >= i {
        assert t[k] == s[k + 1];
      }
    }
  }

  lemma DistinctReplace<T>(s: seq<Node<T>>, i: nat, n: Node<T>)
    requires Distinct(s) && n !in s && i < |s|
    ensures Distinct(s[i := n])
  {
  }

  lemma DataInsert<T>(s: seq<Node<T>>, i: nat, n: Node<T>)
    requires i <= |s|
    ensures Data(s[..i] + [n] + s[i..]) == Data(s)[..i] + [n.data] + Data(s)[i..]
  {
  }

  lemma DataDelete<T>(s: seq<Node<T>>, i: nat)
    requires i < |s|
    ensures Data(s[..i] + s[i + 1..]) == Data(s)[..i] + Data(s)[i + 1..]
  {
  }

  /**
   * What `indexOf` answers on elements `s`: the first index holding `item`, or
   * -1; comparing calls `equals` on each element, so a null element met
   * before a match throws NullPointer unless `item` is itself null.
   */
  function IndexOfF<T(==)>(s: seq<Option<T>>, item: Option<T>): (r: Result<int>)
    ensures r.Success? && r.value >= 0 ==> r.value < |s| && s[r.value] == item && forall j :: 0 <= j < r.value ==> s[j] != item && s[j] != None
    ensures r == Success(-1) <==> forall j :: 0 <= j < |s| ==> s[j] != item && s[j] != None
    ensures r.Failure? ==> r.error == NullPointer && item != None && exists j :: 0 <= j < |s| && s[j] == None && forall k :: 0 <= k < j ==> s[k] != item
    ensures r.Success? ==> r.value >= -1
  {
    if s == [] then Success(-1)
    else if s[0] == item then Success(0)
    else if s[0] == None then Failure(NullPointer)
    else
      match IndexOfF(s[1..], item)
      case Success(i) => if i == -1 then Success(-1) else Success(i + 1)
      case Failure(e) => Failure(e)
  }

  /** With no null element, `indexOf` finds `item` exactly when it is an element. */
  lemma IndexOfWithoutNulls<T>(s: seq<Option<T>>, item: Option<T>)
    requires None !in s
    ensures IndexOfF(s, item).Success?
    ensures IndexOfF(s, item).value >= 0 <==> item in s
  {
    if item in s {
      var j :| 0 <= j < |s| && s[j] == item;
    }
  }

  class DoubleLinkedList<T(==)> {
    var front: Node?<T>
    var back: Node?<T>
    var size: int
    /** The live nodes, front to back. */
    ghost var Nodes: seq<Node<T>>

    ghost predicate Valid()
      reads this, Nodes, front
    {
      && size == |Nodes|
      && Linked(Nodes)
      && (Nodes != [] ==> front == Nodes[0] && back == Nodes[|Nodes| - 1])
      && (Nodes == [] ==> front == back && (front != null ==> front.data == None && front.next == null))
    }

    /** The elements, front to back. */
    ghost function Elements(): seq<Option<T>>
      reads this
    {
      Data(Nodes)
    }

    /** What an iterator yields: the elements, or the null of the node an emptying `remove` left behind. */
    ghost function Yields(): seq<Option<T>>
      reads this
    {
      if Nodes == [] && front != null then [None] else Elements()
    }

    constructor ()
      ensures Valid() && Elements() == [] && front == null && back == null
    {
      front := null;
      back := null;
      size := 0;
      Nodes := [];
    }

    /** Appends `item` at the back. */
    method Add(item: Option<T>)
      requires Valid()
      modifies this, Nodes
      ensures Valid() && Elements() == old(Elements()) + [item]
      ensures fresh(back) && Nodes == old(Nodes) + [back]
    {
      if size == 0 {
        front := new Node<T>(null, item, null);
        back := front;
        Nodes := [front];
      } else {
        var n := new Node<T>(back, item, null);
        back.next := n;
        back := back.next;
        Nodes := Nodes + [n];
      }
      size := size + 1;
    }

    /**
     * Removes and returns the last element. On an empty list it reads the
     * datum of `back` first: a list never filled throws NullPointer, an
     * emptied one EmptyContainer. Emptying the list leaves a node holding
     * null at `front` and `back`.
     */
    method Remove() returns (r: Result<Option<T>>)
      requires Valid()
      modifies this, Nodes
      ensures Valid()
      ensures old(size) == 0 && old(back) == null ==> r == Failure(NullPointer)
      ensures old(size) == 0 && old(back) != null ==> r == Failure(EmptyContainer)
      ensures old(size) == 0 ==> Nodes == old(Nodes) && front == old(front)
      ensures old(size) > 0 ==> r == Success(old(Elements())[old(size) - 1]) && Elements() == old(Elements())[..old(size) - 1]
      ensures old(size) == 1 ==> Yields() == [None]
      ensures Nodes <= old(Nodes)
    {
      if back == null {
        return Failure(NullPointer);
      }
      var item := back.data;
      if size == 0 {
        return Failure(EmptyContainer);
      } else if size == 1 {
        front := new Node<T>(null, None, null);
        back := front;
      } else {
        assert back.prev == Nodes[size - 2];
        back := back.prev;
        back.next := null;
      }
      size := size - 1;
      Nodes := Nodes[..size];
      return Success(item);
    }

    /** Element `index`, or IndexOutOfBounds. */
    method Get(index: int) returns (r: Result<Option<T>>)
      requires Valid()
      ensures 0 <= index < |Elements()| ==> r == Success(Elements()[index])
      ensures !(0 <= index < |Elements()|) ==> r == Failure(IndexOutOfBounds)
    {
      var temp := GetNode(index, size);
      if temp.Failure? {
        return Failure(temp.error);
      }
      return Success(temp.value.data);
    }

    /** Replaces element `index` by `item` through a fresh node, or throws IndexOutOfBounds. */
    method Set(index: int, item: Option<T>) returns (o: Outcome)
      requires Valid()
      modifies this, Nodes
      ensures Valid()
      ensures 0 <= index < old(size) ==> o == Pass && Elements() == old(Elements())[index := item]
      ensures !(0 <= index < old(size)) ==> o == Fail(IndexOutOfBounds) && Nodes == old(Nodes) && front == old(front) && back == old(back)
    {
      var t := GetNode(index, size);
      if t.Failure? {
        return Fail(t.error);
      }
      var n := Replace(index, t.value, item);
      return Pass;
    }

    /** The relinking of `set`: a fresh node holding `item` takes the place of node `index`. */
    method Replace(index: int, temp: Node<T>, item: Option<T>) returns (newNode: Node<T>)
      requires Valid() && 0 <= index < size && temp == Nodes[index]
      modifies this, Nodes
      ensures Valid() && fresh(newNode) && newNode.data == item
      ensures Nodes == old(Nodes)[index := newNode]
    {
      ghost var s := Nodes;
      newNode := new Node<T>(temp.prev, item, temp.next);
      if index == 0 {
        front := newNode;
      } else {
        assert temp.prev == s[index - 1];
        temp.prev.next := newNode;
      }
      if index == size - 1 {
        back := newNode;
      } else {
        assert temp.next == s[index + 1];
        temp.next.prev := newNode;
      }
      Nodes := s[index := newNode];
      DistinctReplace(s, index, newNode);
      forall i | 0 <= i < |Nodes| - 1
        ensures Nodes[i].next == Nodes[i + 1]
      {
        if i != index - 1 && i != index && index > 0 {
          assert s[i] != s[index - 1];
        }
      }
      forall i | 0 < i < |Nodes|
        ensures Nodes[i].prev == Nodes[i - 1]
      {
        if i != index && i != index + 1 && index < |s| - 1 {
          assert s[i] != s[index + 1];
        }
      }
    }

    /**
     * Inserts `item` before element `index`; `index == size` appends. The
     * neighbours are found from the front for the first half and by a walk
     * from the back otherwise.
     */
    method Insert(index: int, item: Option<T>) returns (o: Outcome)
      requires Valid()
      modifies this, Nodes
      ensures Valid()
      ensures 0 <= index <= old(size) ==> o == Pass && Elements() == old(Elements())[..index] + [item] + old(Elements())[index..]
      ensures !(0 <= index <= old(size)) ==> o == Fail(IndexOutOfBounds) && Nodes == old(Nodes) && front == old(front) && back == old(back)
    {
      if index == size {
        Add(item);
        return Pass;
      }
      var temp1: Node?<T>;
      var temp2: Node?<T>;
      if index <= size / 2 {
        var t := GetNode(index, size + 1);
        if t.Failure? {
          return Fail(t.error);
        }
        temp2 := t.value;
        temp1 := temp2.prev;
      } else {
        if index < 0 || index >= size + 1 {
          return Fail(IndexOutOfBounds);
        }
        temp1, temp2 := WalkFromBack(index);
      }
      ghost var before := Nodes;
      assert temp2 == Nodes[index] && (index > 0 ==> temp1 == Nodes[index - 1]);
      var n := Splice(index, temp1, temp2, item);
      DataInsert(before, index, n);
      return Pass;
    }

    /** The relinking of `insert`: a fresh node holding `item` goes between `temp1` and `temp2`. */
    method Splice(index: int, temp1: Node?<T>, temp2: Node?<T>, item: Option<T>) returns (newNode: Node<T>)
      requires Valid() && 0 <= index < size
      requires temp1 == (if index == 0 then null else Nodes[index - 1]) && temp2 == Nodes[index]
      modifies this, temp1, temp2
      ensures Valid() && fresh(newNode) && newNode.data == item
      ensures Nodes == old(Nodes)[..index] + [newNode] + old(Nodes)[index..]
    {
      ghost var s := Nodes;
      newNode := new Node<T>(temp1, item, temp2);
      if index == 0 {
        front := newNode;
      } else {
        temp1.next := newNode;
      }
      temp2.prev := newNode;
      size := size + 1;
      Nodes := s[..index] + [newNode] + s[index..];
      DistinctInsert(s, index, newNode);
      InsertAt(s, index, newNode);
      assert NextLinked(Nodes) by {
        forall i | 0 <= i < |Nodes| - 1
          ensures Nodes[i].next == Nodes[i + 1]
        {
          if i < index - 1 {
            assert s[i] != temp1;
          } else if i > index {
            assert s[i - 1] != temp1;
          }
        }
      }
      assert PrevLinked(Nodes) by {
        forall i | 0 < i < |Nodes|
          ensures Nodes[i].prev == Nodes[i - 1]
        {
          if i < index {
            assert s[i] != temp2;
          } else if i > index + 1 {
            assert s[i - 1] != temp2;
          }
        }
      }
    }

    /** The walk of `insert` from the back: the nodes on either side of the gap before `index`. */
    method WalkFromBack(index: int) returns (temp1: Node?<T>, temp2: Node?<T>)
      requires Valid() && 0 < index < size
      ensures temp1 == Nodes[index - 1] && temp2 == Nodes[index]
    {
      temp1 := back;
      temp2 := null;
      var i := size - 1;
      while i >= index
        invariant index - 1 <= i <= size - 1
        invariant temp1 == Nodes[i]
        invariant i < size - 1 ==> temp2 == Nodes[i + 1]
        decreases i
      {
        temp2 := temp1;
        temp1 := temp1.prev;
        i := i - 1;
      }
    }

    /**
     * Removes and returns element `index`. The last index goes through
     * `remove`, so `delete(-1)` on an empty list answers as `remove` does;
     * any other index outside the list throws IndexOutOfBounds.
     */
    method Delete(index: int) returns (r: Result<Option<T>>)
      requires Valid()
      modifies this, Nodes
      ensures Valid()
      ensures index == old(size) - 1 == -1 && old(back) == null ==> r == Failure(NullPointer)
      ensures index == old(size) - 1 == -1 && old(back) != null ==> r == Failure(EmptyContainer)
      ensures index == old(size) - 1 == -1 ==> Nodes == old(Nodes) && front == old(front) && back == old(back)
      ensures 0 <= index < old(size) ==> r == Success(old(Elements())[index]) && Elements() == old(Elements())[..index] + old(Elements())[index + 1..]
      ensures !(0 <= index < old(size)) && index != old(size) - 1 ==> r == Failure(IndexOutOfBounds) && Nodes == old(Nodes) && front == old(front) && back == old(back)
      ensures index == 0 && old(size) == 1 ==> Yields() == [None]
    {
      if index == size - 1 {
        r := Remove();
        if index >= 0 {
          assert old(Elements())[..index] + old(Elements())[index + 1..] == old(Elements())[..index];
        }
        return;
      }
      var t := GetNode(index, size);
      if t.Failure? {
        return Failure(t.error);
      }
      var item := t.value.data;
      DataDelete(Nodes, index);
      Unlink(index, t.value);
      return Success(item);
    }

    /** The relinking of `delete` below the last index: node `index` leaves the chain. */
    method Unlink(index: int, temp: Node<T>)
      requires Valid() && 0 <= index < size - 1 && temp == Nodes[index]
      modifies this, Nodes
      ensures Valid() && Nodes == old(Nodes)[..index] + old(Nodes)[index + 1..]
    {
      ghost var s := Nodes;
      if index == 0 {
        front := front.next;
        front.prev := null;
      } else {
        assert temp.prev == s[index - 1] && temp.next == s[index + 1];
        temp.prev.next := temp.next;
        temp.next.prev := temp.prev;
      }
      size := size - 1;
      Nodes := s[..index] + s[index + 1..];
      DistinctDelete(s, index);
      forall i | 0 <= i < |Nodes| - 1
        ensures Nodes[i].next == Nodes[i + 1]
      {
        if i < index - 1 {
          assert Nodes[i] == s[i] != s[index - 1] && Nodes[i + 1] == s[i + 1];
        } else if i >= index && index > 0 {
          assert Nodes[i] == s[i + 1] != s[index - 1] && Nodes[i + 1] == s[i + 2];
        } else if i >= index {
          assert Nodes[i] == s[i + 1] && Nodes[i + 1] == s[i + 2];
        }
      }
      forall i | 0 < i < |Nodes|
        ensures Nodes[i].prev == Nodes[i - 1]
      {
        if i < index {
          assert Nodes[i] == s[i] != s[index + 1] && Nodes[i - 1] == s[i - 1];
        } else if i > index {
          assert Nodes[i] == s[i + 1] != s[index + 1] && Nodes[i - 1] == s[i];
        }
      }
    }

    /** `indexOf`: the first index holding `item`, or -1, or NullPointer past a null element. */
    method IndexOf(item: Option<T>) returns (r: Result<int>)
      requires Valid()
      ensures r == IndexOfF(Elements(), item)
    {
      var temp := front;
      var i := 0;
      while i < size
        invariant 0 <= i <= size
        invariant i < size ==> temp == Nodes[i]
        invariant IndexOfF(Elements(), item) == Shift(IndexOfF(Elements()[i..], item), i)
      {
        IndexOfStep(Elements()[i..], item, i);
        if temp.data == item {
          return Success(i);
        }
        if temp.data == None {
          return Failure(NullPointer);
        }
        temp := temp.next;
        i := i + 1;
      }
      return Success(-1);
    }

    /** Whether `other` is an element, with `indexOf`'s NullPointer. */
    method Contains(other: Option<T>) returns (r: Result<bool>)
      requires Valid()
      ensures r.Success? <==> IndexOfF(Elements(), other).Success?
      ensures r.Success? ==> (r.value <==> other in Elements())
    {
      var i := IndexOf(other);
      if i.Failure? {
        return Failure(i.error);
      }
      if i.value == -1 {
        return Success(false);
      }
      return Success(true);
    }

    /** The number of elements. */
    method Size() returns (n: int)
      requires Valid()
      ensures n == |Elements()|
    {
      n := size;
    }

    /** An iterator from `front`. */
    method Iterator() returns (it: DoubleLinkedListIterator<T>)
      requires Valid()
      ensures fresh(it) && it.Valid() && it.Remaining() == Yields()
    {
      ghost var rest := if Nodes == [] && front != null then [front] else Nodes;
      it := new DoubleLinkedListIterator(front, rest);
    }

    /**
     * `getNode`: node `index`, walking from the front for the first half and
     * from the back otherwise, or IndexOutOfBounds outside `[0, max)`.
     */
    method GetNode(index: int, max: int) returns (r: Result<Node<T>>)
      requires Valid() && (max == size || (max == size + 1 && index != size))
      ensures !(0 <= index < max) ==> r == Failure(IndexOutOfBounds)
      ensures 0 <= index < max ==> r == Success(Nodes[index])
    {
      if index < 0 || index >= max {
        return Failure(IndexOutOfBounds);
      }
      var temp := front;
      if index + 1 <= (size + 1) / 2 {
        var i := 0;
        while i < index
          invariant 0 <= i <= index && temp == Nodes[i]
        {
          temp := temp.next;
          i := i + 1;
        }
      } else {
        temp := back;
        var i := size - 1;
        while i > index
          invariant index <= i <= size - 1 && temp == Nodes[i]
        {
          temp := temp.prev;
          i := i - 1;
        }
      }
      return Success(temp);
    }
  }

  /** Shifts a found index by `i`, leaving -1 and failures alone. */
  function Shift(r: Result<int>, i: nat): Result<int> {
    if r.Success? && r.value >= 0 then Success(r.value + i) else r
  }

  /** One step of the `indexOf` scan. */
  lemma IndexOfStep<T>(s: seq<Option<T>>, item: Option<T>, i: nat)
    requires s != []
    ensures s[0] != item && s[0] != None ==> Shift(IndexOfF(s, item), i) == Shift(IndexOfF(s[1..], item), i + 1)
  {
  }

  /** Walks the nodes from a start node along `next`. */
  class DoubleLinkedListIterator<T> {
    var current: Node?<T>
    /** The nodes still to be visited. */
    ghost var Rest: seq<Node<T>>

    ghost predicate Valid()
      reads this, Rest
    {
      && Chained(Rest)
      && current == (if Rest == [] then null else Rest[0])
    }

    /** What is still to be yielded. */
    ghost function Remaining(): seq<Option<T>>
      reads this
    {
      Data(Rest)
    }

    constructor (current: Node?<T>, ghost rest: seq<Node<T>>)
      requires Chained(rest) && current == (if rest == [] then null else rest[0])
      ensures Valid() && Remaining() == Data(rest)
    {
      this.current := current;
      Rest := rest;
    }

    /** Whether there is a node left. */
    method HasNext() returns (b: bool)
      requires Valid()
      ensures b <==> Remaining() != []
    {
      b := current != null;
    }

    /** The datum of the current node, or NoSuchElement at the end. */
    method Next() returns (r: Result<Option<T>>)
      requires Valid()
      modifies this
      ensures Valid()
      ensures old(Remaining()) == [] ==> r == Failure(NoSuchElement) && Remaining() == []
      ensures old(Remaining()) != [] ==> r == Success(old(Remaining())[0]) && Remaining() == old(Remaining())[1..]
    {
      if current == null {
        return Failure(NoSuchElement);
      }
      var temp := current.data;
      current := current.next;
      Rest := Rest[1..];
      return Success(temp);
    }
  }
}

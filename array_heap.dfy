/**
 * The 4-ary min-heap: elements in slots `1..heapSize` of a growable array
 * (slot 0 unused, every other slot null), the parent of slot `i` at
 * `(i + 2) / 4` and its children at `4i - 2 .. 4i + 1`. Elements are the
 * integers the heap compares; `None` is a null reference.
 *
 * The specification works on the live prefix `heap[..heapSize + 1]` of the
 * array: `SiftUp` and `SiftDown` are what the percolate loops compute on it,
 * and the lemmas show they restore the heap order and keep the elements.
 */
module ArrayHeaps {
  import opened Wrappers

  /** Number of children of a slot. */
  const NUM_CHILDREN: nat := 4

  /** Length of a fresh heap's array. */
  const INITIAL_SIZE: nat := 6

  /** `parentIndex`. */
  function Parent(i: nat): (p: nat)
    ensures i >= 2 ==> 1 <= p < i
  {
    (i + 2) / NUM_CHILDREN
  }

  /** `leftIndex`: the first child of slot `i`. */
  function LeftIndex(i: nat): int {
    i * NUM_CHILDREN - 2
  }

  /** The children of slot `i >= 1` are exactly the slots whose parent is `i`. */
  lemma ChildrenOfParent(i: nat, c: nat)
    requires i >= 1
    ensures LeftIndex(i) <= c <= NUM_CHILDREN * i + 1 <==> c >= 2 && Parent(c) == i
  {
  }

  /** `4^h`. */
  function Pow4(h: nat): (r: nat)
    ensures r >= 1
  {
    if h == 0 then 1 else NUM_CHILDREN * Pow4(h - 1)
  }

  /** The array length after growing to `height`: each growth appends `4^height` slots. */
  function Capacity(height: nat): nat
    requires height >= 1
  {
    if height == 1 then INITIAL_SIZE else Capacity(height - 1) + Pow4(height)
  }

  /** A live prefix: slot 0 null, every other slot holding an element. */
  ghost predicate Prefix(p: seq<Option<int>>) {
    && |p| >= 1
    && p[0] == None
    && forall i :: 1 <= i < |p| ==> p[i].Some?
  }

  /** The elements of a live prefix, slot by slot: what `toString` prints. */
  function Values(p: seq<Option<int>>): (r: seq<int>)
    requires Prefix(p)
    ensures |r| == |p| - 1 && forall i :: 0 <= i < |r| ==> r[i] == p[i + 1].value
  {
    seq(|p| - 1, i requires 0 <= i < |p| - 1 => p[i + 1].value)
  }

  /** The elements of a live prefix, as a multiset. */
  ghost function Elements(p: seq<Option<int>>): multiset<int>
    requires Prefix(p)
  {
    multiset(Values(p))
  }

  /** Every slot but the root is no smaller than its parent. */
  ghost predicate HeapOrdered(p: seq<Option<int>>) {
    && Prefix(p)
    && forall i :: 2 <= i < |p| ==> p[Parent(i)].value <= p[i].value
  }

  /**
   * Heap order with a hole at `k` on the way up: every slot but `k` is no
   * smaller than its parent, and the parent of `k` is no larger than the
   * children of `k`.
   */
  ghost predicate UpHole(p: seq<Option<int>>, k: nat) {
    && Prefix(p) && 1 <= k < |p|
    && (forall i :: 2 <= i < |p| && i != k ==> p[Parent(i)].value <= p[i].value)
    && (k >= 2 ==> forall c :: 2 <= c < |p| && Parent(c) == k ==> p[Parent(k)].value <= p[c].value)
  }

  /**
   * Heap order with a hole at `k` on the way down: every slot whose parent is
   * not `k` is no smaller than its parent, and the parent of `k` is no larger
   * than the children of `k`.
   */
  ghost predicate DownHole(p: seq<Option<int>>, k: nat) {
    && Prefix(p) && 1 <= k
    && (forall i :: 2 <= i < |p| && Parent(i) != k ==> p[Parent(i)].value <= p[i].value)
    && (k >= 2 ==> k < |p| && forall c :: 2 <= c < |p| && Parent(c) == k ==> p[Parent(k)].value <= p[c].value)
  }

  /** `swap`: exchanges slots `i` and `j`. */
  function SwapSlots<T>(p: seq<T>, i: nat, j: nat): seq<T>
    requires i < |p| && j < |p|
  {
    p[i := p[j]][j := p[i]]
  }

  /** Exchanging two live slots keeps a live prefix and its elements. */
  lemma SwapElements(p: seq<Option<int>>, i: nat, j: nat)
    requires Prefix(p) && 1 <= i < |p| && 1 <= j < |p|
    ensures Prefix(SwapSlots(p, i, j)) && Elements(SwapSlots(p, i, j)) == Elements(p)
  {
    var s := Values(p);
    assert Values(SwapSlots(p, i, j)) == s[i - 1 := s[j - 1]][j - 1 := s[i - 1]];
  }

  /** `percolateUp` from slot `k`: swap with the parent while the parent is larger. */
  function SiftUp(p: seq<Option<int>>, k: nat): (r: seq<Option<int>>)
    requires Prefix(p) && 1 <= k < |p|
    ensures Prefix(r) && |r| == |p|
    decreases k
  {
    if k > 1 && p[Parent(k)].value > p[k].value then
      SiftUp(SwapSlots(p, k, Parent(k)), Parent(k))
    else
      p
  }

  /**
   * The inner scan of `percolateDown`: the first smallest of the children of
   * `k` from slot `j` on, `best` being the smallest before `j`.
   */
  function MinChild(p: seq<Option<int>>, k: nat, j: nat, best: nat): (r: nat)
    requires Prefix(p) && k >= 1
    requires LeftIndex(k) <= best < |p| && best < j <= NUM_CHILDREN * k + 2
    ensures LeftIndex(k) <= r < |p| && r <= NUM_CHILDREN * k + 1
    ensures p[r].value <= p[best].value
    ensures forall c :: j <= c <= NUM_CHILDREN * k + 1 && c < |p| ==> p[r].value <= p[c].value
    decreases NUM_CHILDREN * k + 2 - j
  {
    if j <= NUM_CHILDREN * k + 1 && j < |p| then
      MinChild(p, k, j + 1, if p[j].value < p[best].value then j else best)
    else
      best
  }

  /** The smallest child of a slot that has one. */
  function SmallestChild(p: seq<Option<int>>, k: nat): (r: nat)
    requires Prefix(p) && k >= 1 && LeftIndex(k) < |p|
    ensures LeftIndex(k) <= r < |p| && r <= NUM_CHILDREN * k + 1
    ensures forall c :: LeftIndex(k) <= c <= NUM_CHILDREN * k + 1 && c < |p| ==> p[r].value <= p[c].value
  {
    MinChild(p, k, LeftIndex(k) + 1, LeftIndex(k))
  }

  /** `percolateDown` from slot `k`: swap with the smallest child while it is smaller. */
  function SiftDown(p: seq<Option<int>>, k: nat): (r: seq<Option<int>>)
    requires Prefix(p) && 1 <= k
    ensures Prefix(r) && |r| == |p|
    decreases |p| - k
  {
    if LeftIndex(k) < |p| then
      var m := SmallestChild(p, k);
      if p[m].value < p[k].value then SiftDown(SwapSlots(p, m, k), m) else p
    else
      p
  }

  /** One swap of `percolateUp` moves the hole to the parent. */
  lemma UpStep(p: seq<Option<int>>, k: nat)
    requires UpHole(p, k) && k >= 2 && p[Parent(k)].value > p[k].value
    ensures UpHole(SwapSlots(p, k, Parent(k)), Parent(k))
  {
    var q := SwapSlots(p, k, Parent(k));
    SwapElements(p, k, Parent(k));
    forall i | 2 <= i < |q| && i != Parent(k)
      ensures q[Parent(i)].value <= q[i].value
    {
      if Parent(i) == Parent(k) && i != k {
        assert p[Parent(k)].value <= p[i].value;
      }
    }
  }

  /** `percolateUp` restores the heap order around its hole. */
  lemma {:induction false} SiftUpOrders(p: seq<Option<int>>, k: nat)
    requires UpHole(p, k)
    ensures HeapOrdered(SiftUp(p, k))
    ensures Elements(SiftUp(p, k)) == Elements(p)
    decreases k
  {
    if k > 1 && p[Parent(k)].value > p[k].value {
      UpStep(p, k);
      SwapElements(p, k, Parent(k));
      SiftUpOrders(SwapSlots(p, k, Parent(k)), Parent(k));
    }
  }

  /** One swap of `percolateDown` moves the hole to the smallest child. */
  lemma DownStep(p: seq<Option<int>>, k: nat)
    requires DownHole(p, k) && LeftIndex(k) < |p|
    requires p[SmallestChild(p, k)].value < p[k].value
    ensures DownHole(SwapSlots(p, SmallestChild(p, k), k), SmallestChild(p, k))
  {
    var m := SmallestChild(p, k);
    var q := SwapSlots(p, m, k);
    SwapElements(p, m, k);
    forall i | 2 <= i < |q| && Parent(i) != m
      ensures q[Parent(i)].value <= q[i].value
    {
      if Parent(i) == k {
        ChildrenOfParent(k, i);
      }
    }
    forall c | 2 <= c < |q| && Parent(c) == m
      ensures q[Parent(m)].value <= q[c].value
    {
      ChildrenOfParent(k, m);
    }
  }

  /** `percolateDown` restores the heap order around its hole. */
  lemma {:induction false} SiftDownOrders(p: seq<Option<int>>, k: nat)
    requires DownHole(p, k)
    ensures HeapOrdered(SiftDown(p, k))
    ensures Elements(SiftDown(p, k)) == Elements(p)
    decreases |p| - k
  {
    if LeftIndex(k) < |p| {
      var m := SmallestChild(p, k);
      if p[m].value < p[k].value {
        DownStep(p, k);
        SwapElements(p, m, k);
        SiftDownOrders(SwapSlots(p, m, k), m);
      } else {
        forall i | 2 <= i < |p| && Parent(i) == k
          ensures p[k].value <= p[i].value
        {
          ChildrenOfParent(k, i);
        }
      }
    } else {
      forall i | 2 <= i < |p| && Parent(i) == k
        ensures false
      {
        ChildrenOfParent(k, i);
      }
    }
  }

  /** `insert` past the threshold: the item goes in the next slot and percolates up. */
  function InsertF(p: seq<Option<int>>, x: int): (r: seq<Option<int>>)
    requires Prefix(p)
    ensures Prefix(r) && |r| == |p| + 1
  {
    SiftUp(p + [Some(x)], |p|)
  }

  /** `removeMin` on a non-empty heap: the last element moves to the root and percolates down. */
  function RemoveMinF(p: seq<Option<int>>): (r: seq<Option<int>>)
    requires Prefix(p) && |p| >= 2
    ensures Prefix(r) && |r| == |p| - 1
  {
    SiftDown(p[1 := p[|p| - 1]][..|p| - 1], 1)
  }

  /** Inserting keeps the heap order and adds exactly the item. */
  lemma InsertKeepsHeap(p: seq<Option<int>>, x: int)
    requires HeapOrdered(p)
    ensures HeapOrdered(InsertF(p, x))
    ensures Elements(InsertF(p, x)) == Elements(p) + multiset{x}
  {
    var q := p + [Some(x)];
    assert Values(q) == Values(p) + [x];
    assert UpHole(q, |p|);
    SiftUpOrders(q, |p|);
  }

  /** In heap order the root is no larger than any slot. */
  lemma {:induction false} RootIsMin(p: seq<Option<int>>, i: nat)
    requires HeapOrdered(p) && 1 <= i < |p|
    ensures p[1].value <= p[i].value
    decreases i
  {
    if i >= 2 {
      RootIsMin(p, Parent(i));
    }
  }

  /** In heap order the root is a smallest element. */
  lemma RootIsMinimum(p: seq<Option<int>>)
    requires HeapOrdered(p) && |p| >= 2
    ensures p[1].value in Elements(p)
    ensures forall x :: x in Elements(p) ==> p[1].value <= x
  {
    assert Values(p)[0] == p[1].value;
    forall x | x in Elements(p)
      ensures p[1].value <= x
    {
      var j :| 0 <= j < |Values(p)| && Values(p)[j] == x;
      RootIsMin(p, j + 1);
    }
  }

  /** Removing the minimum keeps the heap order and removes exactly the root. */
  lemma RemoveMinKeepsHeap(p: seq<Option<int>>)
    requires HeapOrdered(p) && |p| >= 2
    ensures HeapOrdered(RemoveMinF(p))
    ensures Elements(RemoveMinF(p)) == Elements(p) - multiset{p[1].value}
  {
    var n := |p| - 1;
    var q := p[1 := p[n]][..n];
    var s := Values(p);
    if n == 1 {
      assert Values(q) == [];
    } else {
      assert s == [s[0]] + s[1..n - 1] + [s[n - 1]];
      assert Values(q) == [s[n - 1]] + s[1..n - 1];
    }
    assert DownHole(q, 1);
    SiftDownOrders(q, 1);
  }

  /** Inserting every element of `xs` in order. */
  function InsertAll(p: seq<Option<int>>, xs: seq<int>): (r: seq<Option<int>>)
    requires Prefix(p)
    ensures Prefix(r) && |r| == |p| + |xs|
    decreases |xs|
  {
    if xs == [] then p else InsertAll(InsertF(p, xs[0]), xs[1..])
  }

  /** Inserting 1 into [null] gives [null, 1]. */
  lemma AscendingInsertLayoutStep1()
    ensures InsertF([None], 1) == [None, Some(1)]
  {
  }

  /** Inserting 2 into [null, 1] gives [null, 1, 2]. */
  lemma AscendingInsertLayoutStep2()
    ensures InsertF([None, Some(1)], 2) == [None, Some(1), Some(2)]
  {
  }

  /** Inserting 3 into [null, 1, 2] gives [null, 1, 2, 3]. */
  lemma AscendingInsertLayoutStep3()
    ensures InsertF([None, Some(1), Some(2)], 3) == [None, Some(1), Some(2), Some(3)]
  {
  }

  /** Inserting 4 into [null, 1, 2, 3] gives [null, 1, 2, 3, 4]. */
  lemma AscendingInsertLayoutStep4()
    ensures InsertF([None, Some(1), Some(2), Some(3)], 4) == [None, Some(1), Some(2), Some(3), Some(4)]
  {
  }

  /** Inserting 5 into [null, 1, 2, 3, 4] gives [null, 1, 2, 3, 4, 5]. */
  lemma AscendingInsertLayoutStep5()
    ensures InsertF([None, Some(1), Some(2), Some(3), Some(4)], 5) == [None, Some(1), Some(2), Some(3), Some(4), Some(5)]
  {
  }

  /** The slots after inserting 1 to 5 into an empty heap: no swaps at all. */
  lemma AscendingInsertLayout()
    ensures InsertAll([None], [1, 2, 3, 4, 5]) == [None, Some(1), Some(2), Some(3), Some(4), Some(5)]
  {
    AscendingInsertLayoutStep1();
    assert InsertAll([None], [1, 2, 3, 4, 5]) == InsertAll([None, Some(1)], [2, 3, 4, 5]);
    AscendingInsertLayoutStep2();
    assert InsertAll([None, Some(1)], [2, 3, 4, 5]) == InsertAll([None, Some(1), Some(2)], [3, 4, 5]);
    AscendingInsertLayoutStep3();
    assert InsertAll([None, Some(1), Some(2)], [3, 4, 5]) == InsertAll([None, Some(1), Some(2), Some(3)], [4, 5]);
    AscendingInsertLayoutStep4();
    assert InsertAll([None, Some(1), Some(2), Some(3)], [4, 5]) == InsertAll([None, Some(1), Some(2), Some(3), Some(4)], [5]);
    AscendingInsertLayoutStep5();
    assert InsertAll([None, Some(1), Some(2), Some(3), Some(4)], [5]) == InsertAll([None, Some(1), Some(2), Some(3), Some(4), Some(5)], []);
  }

  /** Inserting 9 into [null] gives [null, 9]. */
  lemma DescendingInsertLayoutStep1()
    ensures InsertF([None], 9) == [None, Some(9)]
  {
  }

  /** Inserting 8 into [null, 9] gives [null, 8, 9]. */
  lemma DescendingInsertLayoutStep2()
    ensures InsertF([None, Some(9)], 8) == [None, Some(8), Some(9)]
  {
    assert SiftUp([None, Some(9), Some(8)], 2) == SiftUp([None, Some(8), Some(9)], 1);
  }

  /** Inserting 7 into [null, 8, 9] gives [null, 7, 9, 8]. */
  lemma DescendingInsertLayoutStep3()
    ensures InsertF([None, Some(8), Some(9)], 7) == [None, Some(7), Some(9), Some(8)]
  {
    assert SiftUp([None, Some(8), Some(9), Some(7)], 3) == SiftUp([None, Some(7), Some(9), Some(8)], 1);
  }

  /** Inserting 6 into [null, 7, 9, 8] gives [null, 6, 9, 8, 7]. */
  lemma DescendingInsertLayoutStep4()
    ensures InsertF([None, Some(7), Some(9), Some(8)], 6) == [None, Some(6), Some(9), Some(8), Some(7)]
  {
    assert SiftUp([None, Some(7), Some(9), Some(8), Some(6)], 4) == SiftUp([None, Some(6), Some(9), Some(8), Some(7)], 1);
  }

  /** Inserting 5 into [null, 6, 9, 8, 7] gives [null, 5, 9, 8, 7, 6]. */
  lemma DescendingInsertLayoutStep5()
    ensures InsertF([None, Some(6), Some(9), Some(8), Some(7)], 5) == [None, Some(5), Some(9), Some(8), Some(7), Some(6)]
  {
    assert SiftUp([None, Some(6), Some(9), Some(8), Some(7), Some(5)], 5) == SiftUp([None, Some(5), Some(9), Some(8), Some(7), Some(6)], 1);
  }

  /** Inserting 4 into [null, 5, 9, 8, 7, 6] gives [null, 4, 5, 8, 7, 6, 9]. */
  lemma DescendingInsertLayoutStep6()
    ensures InsertF([None, Some(5), Some(9), Some(8), Some(7), Some(6)], 4) == [None, Some(4), Some(5), Some(8), Some(7), Some(6), Some(9)]
  {
    assert SiftUp([None, Some(5), Some(9), Some(8), Some(7), Some(6), Some(4)], 6) == SiftUp([None, Some(5), Some(4), Some(8), Some(7), Some(6), Some(9)], 2);
    assert SiftUp([None, Some(5), Some(4), Some(8), Some(7), Some(6), Some(9)], 2) == SiftUp([None, Some(4), Some(5), Some(8), Some(7), Some(6), Some(9)], 1);
  }

  /** Inserting 3 into [null, 4, 5, 8, 7, 6, 9] gives [null, 3, 4, 8, 7, 6, 9, 5]. */
  lemma DescendingInsertLayoutStep7()
    ensures InsertF([None, Some(4), Some(5), Some(8), Some(7), Some(6), Some(9)], 3) == [None, Some(3), Some(4), Some(8), Some(7), Some(6), Some(9), Some(5)]
  {
    assert SiftUp([None, Some(4), Some(5), Some(8), Some(7), Some(6), Some(9), Some(3)], 7) == SiftUp([None, Some(4), Some(3), Some(8), Some(7), Some(6), Some(9), Some(5)], 2);
    assert SiftUp([None, Some(4), Some(3), Some(8), Some(7), Some(6), Some(9), Some(5)], 2) == SiftUp([None, Some(3), Some(4), Some(8), Some(7), Some(6), Some(9), Some(5)], 1);
  }

  /** Inserting 2 into [null, 3, 4, 8, 7, 6, 9, 5] gives [null, 2, 3, 8, 7, 6, 9, 5, 4]. */
  lemma DescendingInsertLayoutStep8()
    ensures InsertF([None, Some(3), Some(4), Some(8), Some(7), Some(6), Some(9), Some(5)], 2) == [None, Some(2), Some(3), Some(8), Some(7), Some(6), Some(9), Some(5), Some(4)]
  {
    assert SiftUp([None, Some(3), Some(4), Some(8), Some(7), Some(6), Some(9), Some(5), Some(2)], 8) == SiftUp([None, Some(3), Some(2), Some(8), Some(7), Some(6), Some(9), Some(5), Some(4)], 2);
    assert SiftUp([None, Some(3), Some(2), Some(8), Some(7), Some(6), Some(9), Some(5), Some(4)], 2) == SiftUp([None, Some(2), Some(3), Some(8), Some(7), Some(6), Some(9), Some(5), Some(4)], 1);
  }

  /** Inserting 1 into [null, 2, 3, 8, 7, 6, 9, 5, 4] gives [null, 1, 2, 8, 7, 6, 9, 5, 4, 3]. */
  lemma DescendingInsertLayoutStep9()
    ensures InsertF([None, Some(2), Some(3), Some(8), Some(7), Some(6), Some(9), Some(5), Some(4)], 1) == [None, Some(1), Some(2), Some(8), Some(7), Some(6), Some(9), Some(5), Some(4), Some(3)]
  {
    assert SiftUp([None, Some(2), Some(3), Some(8), Some(7), Some(6), Some(9), Some(5), Some(4), Some(1)], 9) == SiftUp([None, Some(2), Some(1), Some(8), Some(7), Some(6), Some(9), Some(5), Some(4), Some(3)], 2);
    assert SiftUp([None, Some(2), Some(1), Some(8), Some(7), Some(6), Some(9), Some(5), Some(4), Some(3)], 2) == SiftUp([None, Some(1), Some(2), Some(8), Some(7), Some(6), Some(9), Some(5), Some(4), Some(3)], 1);
  }

  /** The slots after inserting 9 down to 1 into an empty heap. */
  lemma DescendingInsertLayout()
    ensures InsertAll([None], [9, 8, 7, 6, 5, 4, 3, 2, 1]) == [None, Some(1), Some(2), Some(8), Some(7), Some(6), Some(9), Some(5), Some(4), Some(3)]
  {
    DescendingInsertLayoutStep1();
    assert InsertAll([None], [9, 8, 7, 6, 5, 4, 3, 2, 1]) == InsertAll([None, Some(9)], [8, 7, 6, 5, 4, 3, 2, 1]);
    DescendingInsertLayoutStep2();
    assert InsertAll([None, Some(9)], [8, 7, 6, 5, 4, 3, 2, 1]) == InsertAll([None, Some(8), Some(9)], [7, 6, 5, 4, 3, 2, 1]);
    DescendingInsertLayoutStep3();
    assert InsertAll([None, Some(8), Some(9)], [7, 6, 5, 4, 3, 2, 1]) == InsertAll([None, Some(7), Some(9), Some(8)], [6, 5, 4, 3, 2, 1]);
    DescendingInsertLayoutStep4();
    assert InsertAll([None, Some(7), Some(9), Some(8)], [6, 5, 4, 3, 2, 1]) == InsertAll([None, Some(6), Some(9), Some(8), Some(7)], [5, 4, 3, 2, 1]);
    DescendingInsertLayoutStep5();
    assert InsertAll([None, Some(6), Some(9), Some(8), Some(7)], [5, 4, 3, 2, 1]) == InsertAll([None, Some(5), Some(9), Some(8), Some(7), Some(6)], [4, 3, 2, 1]);
    DescendingInsertLayoutStep6();
    assert InsertAll([None, Some(5), Some(9), Some(8), Some(7), Some(6)], [4, 3, 2, 1]) == InsertAll([None, Some(4), Some(5), Some(8), Some(7), Some(6), Some(9)], [3, 2, 1]);
    DescendingInsertLayoutStep7();
    assert InsertAll([None, Some(4), Some(5), Some(8), Some(7), Some(6), Some(9)], [3, 2, 1]) == InsertAll([None, Some(3), Some(4), Some(8), Some(7), Some(6), Some(9), Some(5)], [2, 1]);
    DescendingInsertLayoutStep8();
    assert InsertAll([None, Some(3), Some(4), Some(8), Some(7), Some(6), Some(9), Some(5)], [2, 1]) == InsertAll([None, Some(2), Some(3), Some(8), Some(7), Some(6), Some(9), Some(5), Some(4)], [1]);
    DescendingInsertLayoutStep9();
    assert InsertAll([None, Some(2), Some(3), Some(8), Some(7), Some(6), Some(9), Some(5), Some(4)], [1]) == InsertAll([None, Some(1), Some(2), Some(8), Some(7), Some(6), Some(9), Some(5), Some(4), Some(3)], []);
  }

  /** Inserting 1 into [null] gives [null, 1]. */
  lemma RepeatedInsertLayoutStep1()
    ensures InsertF([None], 1) == [None, Some(1)]
  {
  }

  /** Inserting 1 into [null, 1] gives [null, 1, 1]. */
  lemma RepeatedInsertLayoutStep2()
    ensures InsertF([None, Some(1)], 1) == [None, Some(1), Some(1)]
  {
  }

  /** Inserting 1 into [null, 1, 1] gives [null, 1, 1, 1]. */
  lemma RepeatedInsertLayoutStep3()
    ensures InsertF([None, Some(1), Some(1)], 1) == [None, Some(1), Some(1), Some(1)]
  {
  }

  /** Inserting 1 into [null, 1, 1, 1] gives [null, 1, 1, 1, 1]. */
  lemma RepeatedInsertLayoutStep4()
    ensures InsertF([None, Some(1), Some(1), Some(1)], 1) == [None, Some(1), Some(1), Some(1), Some(1)]
  {
  }

  /** Inserting 1 into [null, 1, 1, 1, 1] gives [null, 1, 1, 1, 1, 1]. */
  lemma RepeatedInsertLayoutStep5()
    ensures InsertF([None, Some(1), Some(1), Some(1), Some(1)], 1) == [None, Some(1), Some(1), Some(1), Some(1), Some(1)]
  {
  }

  /** Inserting 0 into [null, 1, 1, 1, 1, 1] gives [null, 0, 1, 1, 1, 1, 1]. */
  lemma RepeatedInsertLayoutStep6()
    ensures InsertF([None, Some(1), Some(1), Some(1), Some(1), Some(1)], 0) == [None, Some(0), Some(1), Some(1), Some(1), Some(1), Some(1)]
  {
    assert SiftUp([None, Some(1), Some(1), Some(1), Some(1), Some(1), Some(0)], 6) == SiftUp([None, Some(1), Some(0), Some(1), Some(1), Some(1), Some(1)], 2);
    assert SiftUp([None, Some(1), Some(0), Some(1), Some(1), Some(1), Some(1)], 2) == SiftUp([None, Some(0), Some(1), Some(1), Some(1), Some(1), Some(1)], 1);
  }

  /** Inserting 0 into [null, 0, 1, 1, 1, 1, 1] gives [null, 0, 0, 1, 1, 1, 1, 1]. */
  lemma RepeatedInsertLayoutStep7()
    ensures InsertF([None, Some(0), Some(1), Some(1), Some(1), Some(1), Some(1)], 0) == [None, Some(0), Some(0), Some(1), Some(1), Some(1), Some(1), Some(1)]
  {
    assert SiftUp([None, Some(0), Some(1), Some(1), Some(1), Some(1), Some(1), Some(0)], 7) == SiftUp([None, Some(0), Some(0), Some(1), Some(1), Some(1), Some(1), Some(1)], 2);
  }

  /** Inserting 0 into [null, 0, 0, 1, 1, 1, 1, 1] gives [null, 0, 0, 1, 1, 1, 1, 1, 0]. */
  lemma RepeatedInsertLayoutStep8()
    ensures InsertF([None, Some(0), Some(0), Some(1), Some(1), Some(1), Some(1), Some(1)], 0) == [None, Some(0), Some(0), Some(1), Some(1), Some(1), Some(1), Some(1), Some(0)]
  {
  }

  /** Inserting 0 into [null, 0, 0, 1, 1, 1, 1, 1, 0] gives [null, 0, 0, 1, 1, 1, 1, 1, 0, 0]. */
  lemma RepeatedInsertLayoutStep9()
    ensures InsertF([None, Some(0), Some(0), Some(1), Some(1), Some(1), Some(1), Some(1), Some(0)], 0) == [None, Some(0), Some(0), Some(1), Some(1), Some(1), Some(1), Some(1), Some(0), Some(0)]
  {
  }

  /** The slots after inserting five 1s and then four 0s: ties never swap. */
  lemma RepeatedInsertLayout()
    ensures InsertAll([None], [1, 1, 1, 1, 1, 0, 0, 0, 0]) == [None, Some(0), Some(0), Some(1), Some(1), Some(1), Some(1), Some(1), Some(0), Some(0)]
  {
    RepeatedInsertLayoutStep1();
    assert InsertAll([None], [1, 1, 1, 1, 1, 0, 0, 0, 0]) == InsertAll([None, Some(1)], [1, 1, 1, 1, 0, 0, 0, 0]);
    RepeatedInsertLayoutStep2();
    assert InsertAll([None, Some(1)], [1, 1, 1, 1, 0, 0, 0, 0]) == InsertAll([None, Some(1), Some(1)], [1, 1, 1, 0, 0, 0, 0]);
    RepeatedInsertLayoutStep3();
    assert InsertAll([None, Some(1), Some(1)], [1, 1, 1, 0, 0, 0, 0]) == InsertAll([None, Some(1), Some(1), Some(1)], [1, 1, 0, 0, 0, 0]);
    RepeatedInsertLayoutStep4();
    assert InsertAll([None, Some(1), Some(1), Some(1)], [1, 1, 0, 0, 0, 0]) == InsertAll([None, Some(1), Some(1), Some(1), Some(1)], [1, 0, 0, 0, 0]);
    RepeatedInsertLayoutStep5();
    assert InsertAll([None, Some(1), Some(1), Some(1), Some(1)], [1, 0, 0, 0, 0]) == InsertAll([None, Some(1), Some(1), Some(1), Some(1), Some(1)], [0, 0, 0, 0]);
    RepeatedInsertLayoutStep6();
    assert InsertAll([None, Some(1), Some(1), Some(1), Some(1), Some(1)], [0, 0, 0, 0]) == InsertAll([None, Some(0), Some(1), Some(1), Some(1), Some(1), Some(1)], [0, 0, 0]);
    RepeatedInsertLayoutStep7();
    assert InsertAll([None, Some(0), Some(1), Some(1), Some(1), Some(1), Some(1)], [0, 0, 0]) == InsertAll([None, Some(0), Some(0), Some(1), Some(1), Some(1), Some(1), Some(1)], [0, 0]);
    RepeatedInsertLayoutStep8();
    assert InsertAll([None, Some(0), Some(0), Some(1), Some(1), Some(1), Some(1), Some(1)], [0, 0]) == InsertAll([None, Some(0), Some(0), Some(1), Some(1), Some(1), Some(1), Some(1), Some(0)], [0]);
    RepeatedInsertLayoutStep9();
    assert InsertAll([None, Some(0), Some(0), Some(1), Some(1), Some(1), Some(1), Some(1), Some(0)], [0]) == InsertAll([None, Some(0), Some(0), Some(1), Some(1), Some(1), Some(1), Some(1), Some(0), Some(0)], []);
  }

  /** `n` null slots. */
  function Nulls(n: nat): (r: seq<Option<int>>)
    ensures |r| == n && forall i :: 0 <= i < n ==> r[i] == None
  {
    seq(n, _ => None)
  }

  class ArrayHeap {
    var heap: array<Option<int>>
    var height: nat
    var heapSize: nat

    ghost predicate Valid()
      reads this, heap
    {
      && height >= 1 && heap.Length == Capacity(height)
      && heapSize < heap.Length
      && HeapOrdered(heap[..heapSize + 1])
      && heap[heapSize + 1..] == Nulls(heap.Length - heapSize - 1)
    }

    /** The live prefix: slot 0 and the elements. */
    ghost function Slots(): seq<Option<int>>
      reads this, heap
      requires heapSize < heap.Length
    {
      heap[..heapSize + 1]
    }

    /** The elements of the heap. */
    ghost function Contents(): multiset<int>
      reads this, heap
      requires Valid()
    {
      Elements(Slots())
    }

    constructor ()
      ensures Valid() && Contents() == multiset{} && fresh(heap)
    {
      heap := new Option<int>[INITIAL_SIZE](_ => None);
      height := 1;
      heapSize := 0;
      new;
      assert Values(heap[..1]) == [];
    }

    /** Removes and returns a smallest element, or throws EmptyContainer when empty. */
    method RemoveMin() returns (r: Result<int>)
      requires Valid()
      modifies this, heap
      ensures Valid() && heap == old(heap)
      ensures old(heapSize) == 0 ==> r == Failure(EmptyContainer) && Slots() == old(Slots())
      ensures old(heapSize) > 0 ==>
        && r.Success? && Slots() == RemoveMinF(old(Slots()))
        && r.value in old(Contents()) && (forall x :: x in old(Contents()) ==> r.value <= x)
        && Contents() == old(Contents()) - multiset{r.value}
    {
      if heapSize == 0 {
        return Failure(EmptyContainer);
      }
      ghost var p := Slots();
      RootIsMinimum(p);
      RemoveMinKeepsHeap(p);
      var temp := PeekMin();
      TakeRoot();
      return temp;
    }

    /** The body of `removeMin` after the emptiness check: the last element replaces the root and percolates down. */
    method TakeRoot()
      requires 1 <= heapSize < heap.Length && Prefix(heap[..heapSize + 1])
      requires heap[heapSize + 1..] == Nulls(heap.Length - heapSize - 1)
      modifies this, heap
      ensures heap == old(heap) && heapSize == old(heapSize) - 1 && height == old(height)
      ensures heap[..heapSize + 1] == RemoveMinF(old(heap[..heapSize + 1]))
      ensures heap[heapSize + 1..] == Nulls(heap.Length - heapSize - 1)
    {
      ghost var p := heap[..heapSize + 1];
      ghost var tail := heap[heapSize + 1..];
      heap[1] := heap[heapSize];
      heap[heapSize] := None;
      heapSize := heapSize - 1;
      assert heap[..heapSize + 1] == p[1 := p[|p| - 1]][..|p| - 1];
      assert heap[heapSize + 1..] == [None] + tail;
      PercolateDown();
    }

    /** A smallest element, or EmptyContainer when empty. */
    method PeekMin() returns (r: Result<int>)
      requires Valid()
      ensures heapSize == 0 ==> r == Failure(EmptyContainer)
      ensures heapSize > 0 ==> r == Success(Slots()[1].value)
      ensures heapSize > 0 ==> r.value in Contents() && forall x :: x in Contents() ==> r.value <= x
    {
      if heapSize == 0 {
        return Failure(EmptyContainer);
      }
      RootIsMinimum(Slots());
      return Success(heap[1].value);
    }

    /** Adds `item`, or throws IllegalArgument for null and changes nothing. */
    method Insert(item: Option<int>) returns (o: Outcome)
      requires Valid()
      modifies this, heap
      ensures Valid()
      ensures item == None ==> o == Fail(IllegalArgument) && heap == old(heap) && heapSize == old(heapSize) && unchanged(heap)
      ensures item != None ==>
        && o == Pass && heapSize == old(heapSize) + 1
        && Slots() == InsertF(old(Slots()), item.value)
        && Contents() == old(Contents()) + multiset{item.value}
    {
      if item == None {
        return Fail(IllegalArgument);
      }
      ghost var p := Slots();
      InsertKeepsHeap(p, item.value);
      CheckResize();
      Place(item.value);
      return Pass;
    }

    /** The body of `insert` after the resize: the item goes in the next slot and percolates up. */
    method Place(x: int)
      requires heapSize + 1 < heap.Length && Prefix(heap[..heapSize + 1])
      requires heap[heapSize + 1..] == Nulls(heap.Length - heapSize - 1)
      modifies this, heap
      ensures heap == old(heap) && heapSize == old(heapSize) + 1 && height == old(height)
      ensures heap[..heapSize + 1] == InsertF(old(heap[..heapSize + 1]), x)
      ensures heap[heapSize + 1..] == Nulls(heap.Length - heapSize - 1)
    {
      ghost var p := heap[..heapSize + 1];
      ghost var tail := heap[heapSize + 1..];
      heapSize := heapSize + 1;
      heap[heapSize] := Some(x);
      assert heap[..heapSize + 1] == p + [Some(x)];
      assert heap[heapSize + 1..] == tail[1..];
      PercolateUp();
    }

    /** The number of elements. */
    method Size() returns (n: nat)
      requires Valid()
      ensures n == heapSize == |Contents()|
    {
      n := heapSize;
    }

    /**
     * Grows the array once the last slot is taken: the height rises by one and
     * `4^height` null slots are appended after a copy of every old slot.
     */
    method CheckResize()
      requires Valid()
      modifies this
      ensures Valid() && heapSize + 1 < heap.Length
      ensures heapSize == old(heapSize) && Slots() == old(Slots())
      ensures old(heapSize) < old(heap.Length) - 1 ==> heap == old(heap) && height == old(height)
      ensures old(heapSize) >= old(heap.Length) - 1 ==>
        && fresh(heap) && height == old(height) + 1
        && heap.Length == old(heap.Length) + Pow4(height)
        && heap[..old(heap.Length)] == old(heap[..])
    {
      if heapSize >= heap.Length - 1 {
        height := height + 1;
        var temp := new Option<int>[heap.Length + Pow4(height)](_ => None);
        var i := 0;
        while i < heap.Length
          invariant heap == old(heap) && heapSize == old(heapSize) && height == old(height) + 1
          invariant 0 <= i <= heap.Length < temp.Length
          invariant forall j :: 0 <= j < i ==> temp[j] == heap[j]
          invariant forall j :: i <= j < temp.Length ==> temp[j] == None
        {
          temp[i] := heap[i];
          i := i + 1;
        }
        assert temp[..heap.Length] == heap[..];
        assert temp[..heapSize + 1] == heap[..heapSize + 1];
        assert temp[heapSize + 1..] == Nulls(temp.Length - heapSize - 1);
        heap := temp;
        assert heap.Length == Capacity(height);
      }
    }

    /** Moves the element in the last slot up until its parent is no larger. */
    method PercolateUp()
      requires 1 <= heapSize < heap.Length && Prefix(heap[..heapSize + 1])
      modifies heap
      ensures heap[..heapSize + 1] == SiftUp(old(heap[..heapSize + 1]), heapSize)
      ensures heap[heapSize + 1..] == old(heap[heapSize + 1..])
    {
      ghost var p := heap[..heapSize + 1];
      var index := heapSize;
      while index > 1 && heap[Parent(index)].value > heap[index].value
        invariant 1 <= index <= heapSize && Prefix(heap[..heapSize + 1])
        invariant SiftUp(heap[..heapSize + 1], index) == SiftUp(p, heapSize)
        invariant heap[heapSize + 1..] == old(heap[heapSize + 1..])
        decreases index
      {
        ghost var q := heap[..heapSize + 1];
        Swap(index, Parent(index));
        assert heap[..heapSize + 1] == SwapSlots(q, index, Parent(index));
        index := Parent(index);
      }
    }

    /** Moves the element at the root down, swapping it with its smallest child while that is smaller. */
    method PercolateDown()
      requires heapSize < heap.Length && Prefix(heap[..heapSize + 1])
      modifies heap
      ensures heap[..heapSize + 1] == SiftDown(old(heap[..heapSize + 1]), 1)
      ensures heap[heapSize + 1..] == old(heap[heapSize + 1..])
    {
      ghost var p := heap[..heapSize + 1];
      var index := 1;
      while LeftIndex(index) <= heapSize
        invariant 1 <= index && Prefix(heap[..heapSize + 1])
        invariant SiftDown(heap[..heapSize + 1], index) == SiftDown(p, 1)
        invariant heap[heapSize + 1..] == old(heap[heapSize + 1..])
        decreases heapSize - index
      {
        ghost var q := heap[..heapSize + 1];
        var smallestChild := FindSmallestChild(index);
        if heap[smallestChild].value < heap[index].value {
          Swap(smallestChild, index);
          assert heap[..heapSize + 1] == SwapSlots(q, smallestChild, index);
        } else {
          break;
        }
        index := smallestChild;
      }
    }

    /** The first smallest child of `index`, scanning its children left to right. */
    method FindSmallestChild(index: nat) returns (smallestChild: nat)
      requires heapSize < heap.Length && Prefix(heap[..heapSize + 1])
      requires 1 <= index && LeftIndex(index) <= heapSize
      ensures smallestChild == SmallestChild(heap[..heapSize + 1], index)
    {
      ghost var q := heap[..heapSize + 1];
      smallestChild := LeftIndex(index);
      var i := -1;
      while i <= 1
        invariant -1 <= i <= 2
        invariant LeftIndex(index) <= smallestChild <= heapSize && smallestChild < NUM_CHILDREN * index + i
        invariant MinChild(q, index, NUM_CHILDREN * index + i, smallestChild) == SmallestChild(q, index)
      {
        var childIndex := NUM_CHILDREN * index + i;
        if childIndex <= heapSize {
          if heap[childIndex].value < heap[smallestChild].value {
            smallestChild := childIndex;
          }
        } else {
          break;
        }
        i := i + 1;
      }
    }

    /** Exchanges two slots. */
    method Swap(i1: nat, i2: nat)
      requires i1 < heap.Length && i2 < heap.Length
      modifies heap
      ensures heap[..] == SwapSlots(old(heap[..]), i1, i2)
    {
      var temp := heap[i2];
      heap[i2] := heap[i1];
      heap[i1] := temp;
    }
  }
}

/** The array-backed max-heap priority queue: nodes (key, value) in a vector
    where the parent of index i > 0 is (i - 1) / 2 in C++ (truncating)
    division. enqueue appends and sifts up, dequeue moves the last node to the
    root and sifts down; both only swap nodes. */
module PriorityQueue {

  /** C++ integer division, which truncates toward zero (Dafny's `/` is
      Euclidean and differs on a negative dividend). */
  function TruncDiv(a: int, b: int): int
    requires b > 0
  {
    if a >= 0 then a / b else -((-a) / b)
  }

  /** parentIdx. */
  function ParentIdx(idx: int): int {
    TruncDiv(idx - 1, 2)
  }

  /** leftChild. */
  function LeftChild(idx: int): int {
    2 * idx + 1
  }

  /** rightChild. */
  function RightChild(idx: int): int {
    2 * idx + 2
  }

  /** Both children of an index name it as their parent, and the parent of a
      positive index lies below it. */
  lemma IndexArithmetic(i: int)
    ensures i >= 0 ==> ParentIdx(LeftChild(i)) == i && ParentIdx(RightChild(i)) == i
    ensures i > 0 ==> 0 <= ParentIdx(i) < i
    ensures i > 0 ==> i == LeftChild(ParentIdx(i)) || i == RightChild(ParentIdx(i))
  {
  }

  /** Under truncating division the root is its own parent; Euclidean division
      would give -1. */
  lemma RootParent()
    ensures ParentIdx(0) == 0 && (0 - 1) / 2 == -1
  {
  }

  datatype HeapNode<T> = HeapNode(key: int, val: T)

  /** The result of an operation that reads index 0 with `at`: the value, or the
      std::out_of_range thrown on an empty heap. */
  datatype Outcome<T> = Value(value: T) | OutOfRange

  /** Every node's key is at most its parent's. */
  predicate IsMaxHeap<T>(h: seq<HeapNode<T>>) {
    forall i :: 0 < i < |h| ==> h[i].key <= h[ParentIdx(i)].key
  }

  function Swap<T>(h: seq<HeapNode<T>>, a: int, b: int): seq<HeapNode<T>>
    requires 0 <= a < |h| && 0 <= b < |h|
  {
    h[a := h[b]][b := h[a]]
  }

  lemma SwapMultiset<T>(h: seq<HeapNode<T>>, a: int, b: int)
    requires 0 <= a < |h| && 0 <= b < |h|
    ensures multiset(Swap(h, a, b)) == multiset(h) && |Swap(h, a, b)| == |h|
  {
    var h1 := h[a := h[b]];
    assert multiset(h1) == multiset(h) - multiset{h[a]} + multiset{h[b]};
    assert multiset(h1[b := h[a]]) == multiset(h1) - multiset{h1[b]} + multiset{h[a]};
  }

  /** The root of a heap holds a largest key. */
  lemma RootIsMax<T>(h: seq<HeapNode<T>>)
    requires IsMaxHeap(h)
    ensures forall i :: 0 <= i < |h| ==> h[i].key <= h[0].key
  {
    forall i | 0 <= i < |h| ensures h[i].key <= h[0].key {
      AncestorBound(h, i);
    }
  }

  lemma {:induction false} AncestorBound<T>(h: seq<HeapNode<T>>, i: int)
    requires IsMaxHeap(h) && 0 <= i < |h|
    ensures h[i].key <= h[0].key
    decreases i
  {
    if i > 0 {
      IndexArithmetic(i);
      AncestorBound(h, ParentIdx(i));
    }
  }

  // ---------------------------------------------------------------------------
  // Sift-up

  /** The heap order holds everywhere except between `c` and its parent. */
  predicate HeapExceptUp<T>(h: seq<HeapNode<T>>, c: int) {
    forall i :: 0 < i < |h| && i != c ==> h[i].key <= h[ParentIdx(i)].key
  }

  /** The children of `c` are bounded by the parent of `c`, so `c` may be
      replaced by its parent's node. */
  predicate Bridge<T>(h: seq<HeapNode<T>>, c: int) {
    0 < c ==> forall i :: 0 < i < |h| && ParentIdx(i) == c ==> h[i].key <= h[ParentIdx(c)].key
  }

  lemma SiftUpStep<T>(h: seq<HeapNode<T>>, c: int)
    requires 0 < c < |h| && HeapExceptUp(h, c) && Bridge(h, c)
    requires h[ParentIdx(c)].key <= h[c].key
    ensures 0 <= ParentIdx(c) < c
    ensures HeapExceptUp(Swap(h, ParentIdx(c), c), ParentIdx(c))
    ensures Bridge(Swap(h, ParentIdx(c), c), ParentIdx(c))
  {
    var p := ParentIdx(c);
    IndexArithmetic(c);
    var h' := Swap(h, p, c);
    forall i | 0 < i < |h'| && i != p ensures h'[i].key <= h'[ParentIdx(i)].key {
      IndexArithmetic(i);
      if ParentIdx(i) == c {
        assert h'[i] == h[i] && h'[c] == h[p];
      } else if ParentIdx(i) == p && i != c {
        assert h'[i] == h[i] && h'[p] == h[c];
      }
    }
    if 0 < p {
      IndexArithmetic(p);
      forall i | 0 < i < |h'| && ParentIdx(i) == p ensures h'[i].key <= h'[ParentIdx(p)].key {
        IndexArithmetic(i);
        assert h'[ParentIdx(p)] == h[ParentIdx(p)];
        if i == c {
          assert h'[c] == h[p];
        } else {
          assert h'[i] == h[i];
        }
      }
    }
  }

  lemma SiftUpDone<T>(h: seq<HeapNode<T>>, c: int)
    requires 0 <= c < |h| && HeapExceptUp(h, c)
    requires c > 0 ==> h[c].key < h[ParentIdx(c)].key
    ensures IsMaxHeap(h)
  {
  }

  // ---------------------------------------------------------------------------
  // Sift-down

  /** The heap order holds everywhere except between `c` and its children. */
  predicate HeapExceptDown<T>(h: seq<HeapNode<T>>, c: int) {
    forall i :: 0 < i < |h| && ParentIdx(i) != c ==> h[i].key <= h[ParentIdx(i)].key
  }

  /** `m` is the child of `c` the sift-down swaps with: a child of largest key. */
  predicate LargestChild<T>(h: seq<HeapNode<T>>, c: int, m: int) {
    && 0 <= c && (m == LeftChild(c) || m == RightChild(c)) && m < |h|
    && (LeftChild(c) < |h| ==> h[LeftChild(c)].key <= h[m].key)
    && (RightChild(c) < |h| ==> h[RightChild(c)].key <= h[m].key)
  }

  lemma SiftDownStep<T>(h: seq<HeapNode<T>>, c: int, m: int)
    requires 0 <= c < |h| && HeapExceptDown(h, c) && Bridge(h, c)
    requires LargestChild(h, c, m) && h[m].key > h[c].key
    ensures c < m && HeapExceptDown(Swap(h, c, m), m) && Bridge(Swap(h, c, m), m)
  {
    IndexArithmetic(c);
    SiftDownOrder(h, c, m);
    SiftDownBridge(h, c, m);
  }

  /** After the swap the order can only fail below `m`. */
  lemma SiftDownOrder<T>(h: seq<HeapNode<T>>, c: int, m: int)
    requires 0 <= c < m < |h| && HeapExceptDown(h, c) && Bridge(h, c)
    requires LargestChild(h, c, m) && h[m].key > h[c].key
    ensures HeapExceptDown(Swap(h, c, m), m)
  {
    IndexArithmetic(m);
    var h' := Swap(h, c, m);
    forall i | 0 < i < |h'| && ParentIdx(i) != m ensures h'[i].key <= h'[ParentIdx(i)].key {
      IndexArithmetic(i);
      if i == m {
        assert h'[m] == h[c] && h'[c] == h[m];
      } else if ParentIdx(i) == c {
        assert h'[i] == h[i] && h'[c] == h[m];
      } else if i == c {
        assert h'[c] == h[m] && h'[ParentIdx(c)] == h[ParentIdx(c)];
      }
    }
  }

  /** After the swap the children of `m` are bounded by the node moved up to `c`. */
  lemma SiftDownBridge<T>(h: seq<HeapNode<T>>, c: int, m: int)
    requires 0 <= c < m < |h| && HeapExceptDown(h, c)
    requires LargestChild(h, c, m)
    ensures Bridge(Swap(h, c, m), m)
  {
    IndexArithmetic(m);
    var h' := Swap(h, c, m);
    forall i | 0 < i < |h'| && ParentIdx(i) == m ensures h'[i].key <= h'[ParentIdx(m)].key {
      IndexArithmetic(i);
      assert h'[i] == h[i] && h'[c] == h[m];
    }
  }

  lemma SiftDownDone<T>(h: seq<HeapNode<T>>, c: int)
    requires 0 <= c && HeapExceptDown(h, c)
    requires LeftChild(c) < |h| ==> h[LeftChild(c)].key <= h[c].key
    requires RightChild(c) < |h| ==> h[RightChild(c)].key <= h[c].key
    ensures IsMaxHeap(h)
  {
    forall i | 0 < i < |h| ensures h[i].key <= h[ParentIdx(i)].key {
      IndexArithmetic(i);
    }
  }

  /** Moving the last node to the root and dropping the last slot keeps the
      order below the root and removes exactly the old root. */
  lemma RemoveRoot<T>(h: seq<HeapNode<T>>)
    requires IsMaxHeap(h) && h != []
    ensures var h' := h[0 := h[|h| - 1]][..|h| - 1];
      && HeapExceptDown(h', 0) && Bridge(h', 0)
      && multiset(h') == multiset(h) - multiset{h[0]}
  {
    var n := |h|;
    var h1 := h[0 := h[n - 1]];
    var h' := h1[..n - 1];
    forall i | 0 < i < |h'| && ParentIdx(i) != 0 ensures h'[i].key <= h'[ParentIdx(i)].key {
      IndexArithmetic(i);
    }
    if n == 1 {
      assert h' == [];
    } else {
      assert h == [h[0]] + h[1..n - 1] + [h[n - 1]];
      assert h' == [h[n - 1]] + h[1..n - 1];
    }
  }

  /** What is left after removing the root holds no key above the root's. */
  lemma RemainderBounded<T>(h: seq<HeapNode<T>>, before: seq<HeapNode<T>>)
    requires before != [] && multiset(h) == multiset(before) - multiset{before[0]}
    requires forall i :: 0 <= i < |before| ==> before[i].key <= before[0].key
    ensures forall i :: 0 <= i < |h| ==> h[i].key <= before[0].key
  {
    forall i | 0 <= i < |h| ensures h[i].key <= before[0].key {
      assert h[i] in multiset(h);
      assert h[i] in multiset(before);
      var j :| 0 <= j < |before| && before[j] == h[i];
    }
  }

  /** Keys in non-increasing order. */
  predicate KeysNonIncreasing<T>(ns: seq<HeapNode<T>>) {
    forall a, b :: 0 <= a < b < |ns| ==> ns[a].key >= ns[b].key
  }

  lemma AppendNonIncreasing<T>(ns: seq<HeapNode<T>>, n: HeapNode<T>)
    requires KeysNonIncreasing(ns) && (ns != [] ==> n.key <= ns[|ns| - 1].key)
    ensures KeysNonIncreasing(ns + [n])
  {
  }

  /** `vals` lists the values of `ns`, in order. */
  ghost predicate ValsOf<T>(vals: seq<T>, ns: seq<HeapNode<T>>) {
    |vals| == |ns| && forall k :: 0 <= k < |ns| ==> vals[k] == ns[k].val
  }

  lemma ValsAppend<T>(vals: seq<T>, ns: seq<HeapNode<T>>, v: T, n: HeapNode<T>)
    requires ValsOf(vals, ns) && v == n.val
    ensures ValsOf(vals + [v], ns + [n])
  {
  }

  /** The state of a drain of `orig`: `nodes` came out of the heap in
      non-increasing key order, `vals` are their values, and what is left holds
      no key above the last one taken. */
  ghost predicate Drained<T>(orig: seq<HeapNode<T>>, heap: seq<HeapNode<T>>, vals: seq<T>, nodes: seq<HeapNode<T>>) {
    && multiset(nodes) + multiset(heap) == multiset(orig)
    && ValsOf(vals, nodes)
    && KeysNonIncreasing(nodes)
    && (nodes != [] ==> forall i :: 0 <= i < |heap| ==> heap[i].key <= nodes[|nodes| - 1].key)
  }

  lemma DrainStep<T>(orig: seq<HeapNode<T>>, before: seq<HeapNode<T>>, heap: seq<HeapNode<T>>,
                     vals: seq<T>, nodes: seq<HeapNode<T>>, v: T)
    requires Drained(orig, before, vals, nodes) && before != [] && v == before[0].val
    requires multiset(heap) == multiset(before) - multiset{before[0]}
    requires forall i :: 0 <= i < |before| ==> before[i].key <= before[0].key
    ensures Drained(orig, heap, vals + [v], nodes + [before[0]])
  {
    RemainderBounded(heap, before);
    AppendNonIncreasing(nodes, before[0]);
    ValsAppend(vals, nodes, v, before[0]);
    assert before[0] in multiset(before);
  }

  class Pq<T> {
    var heap: seq<HeapNode<T>>

    ghost predicate Valid()
      reads this
    {
      IsMaxHeap(heap)
    }

    constructor ()
      ensures Valid() && heap == []
    {
      heap := [];
    }

    /** Pq::enqueue: push the node at the back, then swap it with its parent while
        the parent's key is not greater than the new priority. */
    method Enqueue(item: T, priority: int)
      requires Valid()
      modifies this
      ensures Valid() && |heap| == old(|heap|) + 1
      ensures multiset(heap) == old(multiset(heap)) + multiset{HeapNode(priority, item)}
    {
      heap := heap + [HeapNode(priority, item)];
      var curr := |heap| - 1;
      while curr > 0
        invariant 0 <= curr < |heap| && heap[curr].key == priority && |heap| == old(|heap|) + 1
        invariant HeapExceptUp(heap, curr) && Bridge(heap, curr)
        invariant multiset(heap) == old(multiset(heap)) + multiset{HeapNode(priority, item)}
      {
        var parent := ParentIdx(curr);
        IndexArithmetic(curr);
        if heap[parent].key > priority {
          break;
        }
        SiftUpStep(heap, curr);
        SwapMultiset(heap, parent, curr);
        heap := Swap(heap, parent, curr);
        curr := parent;
      }
      SiftUpDone(heap, curr);
    }

    /** Pq::dequeue: take the root's value, move the last node to the root and
        swap it down with its larger child while that child's key is greater. An
        empty heap throws and is left as it was. */
    method Dequeue() returns (r: Outcome<T>)
      requires Valid()
      modifies this
      ensures Valid()
      ensures old(heap) == [] ==> r == OutOfRange && heap == old(heap)
      ensures old(heap) != [] ==>
        && r == Value(old(heap)[0].val) && |heap| == old(|heap|) - 1
        && multiset(heap) == old(multiset(heap)) - multiset{old(heap)[0]}
        && forall i :: 0 <= i < |old(heap)| ==> old(heap)[i].key <= old(heap)[0].key
    {
      if heap == [] {
        return OutOfRange;
      }
      var resultN := heap[0];
      ghost var before := heap;
      RootIsMax(heap);
      RemoveRoot(heap);
      heap := heap[0 := heap[|heap| - 1]];
      heap := heap[..|heap| - 1];
      assert heap == before[0 := before[|before| - 1]][..|before| - 1];
      var limit := |heap|;
      var curr := 0;
      while curr < limit
        invariant 0 <= curr && |heap| == limit
        invariant HeapExceptDown(heap, curr) && Bridge(heap, curr)
        invariant multiset(heap) == old(multiset(heap)) - multiset{resultN}
        decreases limit - curr
      {
        var childToSwapWith := SwapCandidate(curr);
        if childToSwapWith == curr {
          break;
        }
        SiftDownStep(heap, curr, childToSwapWith);
        SwapMultiset(heap, curr, childToSwapWith);
        heap := Swap(heap, curr, childToSwapWith);
        curr := childToSwapWith;
      }
      SiftDownDone(heap, curr);
      return Value(resultN.val);
    }

    /** The index dequeue's sift-down compares `curr` with: the left child when
        it is larger, then the right child when it is larger still; `curr`
        itself when neither child is larger. */
    method SwapCandidate(curr: int) returns (child: int)
      requires 0 <= curr < |heap|
      ensures child == curr ==>
        && (LeftChild(curr) < |heap| ==> heap[LeftChild(curr)].key <= heap[curr].key)
        && (RightChild(curr) < |heap| ==> heap[RightChild(curr)].key <= heap[curr].key)
      ensures child != curr ==> LargestChild(heap, curr, child) && heap[child].key > heap[curr].key
    {
      var limit := |heap|;
      var leftChildIdx := LeftChild(curr);
      var rightChildIdx := RightChild(curr);
      child := curr;
      if leftChildIdx < limit && heap[leftChildIdx].key > heap[child].key {
        child := leftChildIdx;
      }
      if rightChildIdx < limit && heap[rightChildIdx].key > heap[child].key {
        child := rightChildIdx;
      }
    }

    /** The draining loop of the sorting example: dequeue until the heap is
        empty. The nodes come out in non-increasing key order and are exactly the
        nodes stored. */
    method DrainAll() returns (vals: seq<T>, ghost nodes: seq<HeapNode<T>>)
      requires Valid()
      modifies this
      ensures Valid() && heap == []
      ensures multiset(nodes) == old(multiset(heap)) && |vals| == |nodes|
      ensures forall k :: 0 <= k < |nodes| ==> vals[k] == nodes[k].val
      ensures KeysNonIncreasing(nodes)
    {
      vals, nodes := [], [];
      while !IsEmpty()
        invariant Valid()
        invariant Drained(old(heap), heap, vals, nodes)
        decreases |heap|
      {
        ghost var before := heap;
        var r := Dequeue();
        DrainStep(old(heap), before, heap, vals, nodes, r.value);
        vals, nodes := vals + [r.value], nodes + [before[0]];
      }
    }

    /** Pq::peek: the root's value, whose key is a largest one. */
    function Peek(): (r: Outcome<T>)
      reads this
      requires Valid()
      ensures r.OutOfRange? <==> heap == []
      ensures r.Value? ==>
        r.value == heap[0].val && forall i :: 0 <= i < |heap| ==> heap[i].key <= heap[0].key
    {
      if heap == [] then OutOfRange
      else
        RootIsMax(heap);
        Value(heap[0].val)
    }

    /** Pq::count: the number of stored nodes. */
    function Count(): (n: int)
      reads this
      ensures n == |multiset(heap)|
    {
      |heap|
    }

    /** Pq::isEmpty. */
    function IsEmpty(): (b: bool)
      reads this
      ensures b <==> Count() == 0
      ensures b <==> multiset(heap) == multiset{}
    {
      |heap| == 0
    }
  }
}

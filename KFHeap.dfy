/**
 * KFHeap.swift: the reference-type binary heap. `push` appends and sifts up
 * in place, `pop` swaps the first element with the last, removes it and
 * sifts down with `heapify`, and the heap is its own generator: `next()`
 * pops.
 *
 * Unlike Heap.swift, `pop` has no separate case for a single element: it
 * swaps index 0 with itself, which leaves the array as it is.
 */
module KFHeap {
  import opened Wrappers
  import opened HeapOrder

  class KFHeap<T(==, !new)> {
    const compare: (T, T) -> bool
    var heap: seq<T>

    ghost predicate Valid()
      reads this
    {
      StrictWeakOrder(compare) && IsHeap(compare, heap)
    }

    /** `init(compare:)`: an empty heap. */
    constructor (compare: (T, T) -> bool)
      requires StrictWeakOrder(compare)
      ensures Valid() && this.compare == compare && heap == []
    {
      this.compare := compare;
      heap := [];
    }

    /**
     * Appends `node` and sifts it up until it reaches the root or a parent
     * that `compare` puts above it.
     */
    method Push(node: T)
      requires Valid()
      modifies this
      ensures Valid()
      ensures |heap| == old(|heap|) + 1
      ensures multiset(heap) == old(multiset(heap)) + multiset{node}
    {
      heap := heap + [node];
      if |heap| == 1 {
        return;
      }
      var current: nat := |heap| - 1;
      while current > 0
        invariant current < |heap| && |heap| == old(|heap|) + 1
        invariant HeapExceptUp(compare, heap, current)
        invariant multiset(heap) == old(multiset(heap)) + multiset{node}
      {
        var parent := Parent(current);
        if compare(heap[parent], heap[current]) {
          break;
        }
        SwapUp(compare, heap, current);
        heap := Swap(heap, parent, current);
        current := parent;
      }
      StopUp(compare, heap, current);
    }

    /**
     * Removes and returns the first element, the one nothing left belongs
     * above. An empty heap returns None and is left unchanged.
     */
    method Pop() returns (r: Option<T>)
      requires Valid()
      modifies this
      ensures Valid()
      ensures old(heap) == [] ==> r.None? && heap == old(heap)
      ensures old(heap) != [] ==> r == Some(old(heap)[0])
      ensures r.Some? ==> |heap| == old(|heap|) - 1
      ensures r.Some? ==> multiset(heap) == old(multiset(heap)) - multiset{r.value}
      ensures r.Some? ==> forall x :: x in heap ==> !compare(x, r.value)
    {
      if |heap| == 0 {
        return None;
      }
      ghost var was := heap;
      SwapLastAndDrop(compare, heap);
      heap := Swap(heap, 0, |heap| - 1);
      var pop := heap[|heap| - 1];
      heap := heap[..|heap| - 1];
      ghost var dropped := heap;
      assert multiset(dropped) == multiset(was) - multiset{was[0]};
      Heapify(0);
      assert multiset(heap) == multiset(dropped);
      r := Some(pop);
      RestIsNotBefore(compare, was, heap);
    }

    /** Drops every element. */
    method RemoveAll()
      modifies this
      ensures heap == [] && Count() == 0 && IsEmpty()
      ensures StrictWeakOrder(compare) ==> Valid()
    {
      heap := [];
    }

    /**
     * `heapify(index)`: swaps `index` with the smallest of it and its
     * existing children (the left child unless the right one beats it) and
     * recurses there; stops without a swap. Also called on an empty heap.
     */
    method Heapify(index: nat)
      requires StrictWeakOrder(compare)
      requires HeapExceptDown(compare, heap, index)
      modifies this
      ensures Valid()
      ensures |heap| == old(|heap|) && multiset(heap) == old(multiset(heap))
      decreases |heap| - index
    {
      var left := index * 2 + 1;
      var right := index * 2 + 2;
      var smallest := index;
      var count := |heap|;
      if left < count && compare(heap[left], heap[smallest]) {
        smallest := left;
      }
      if right < count && compare(heap[right], heap[smallest]) {
        smallest := right;
      }
      if smallest != index {
        Asymmetric(compare, heap[smallest], heap[index]);
        SwapDown(compare, heap, index, smallest);
        heap := Swap(heap, index, smallest);
        Heapify(smallest);
      } else {
        StopDown(compare, heap, index);
      }
    }

    function Count(): (n: nat)
      reads this
      ensures n == |heap|
      ensures n == 0 <==> IsEmpty()
    {
      |heap|
    }

    function IsEmpty(): (b: bool)
      reads this
      ensures b <==> heap == []
    {
      |heap| == 0
    }

    /** `next()` of the generator conformance: it pops. */
    method Next() returns (r: Option<T>)
      requires Valid()
      modifies this
      ensures Valid()
      ensures old(heap) == [] ==> r.None? && heap == old(heap)
      ensures old(heap) != [] ==> r == Some(old(heap)[0])
      ensures r.Some? ==> |heap| == old(|heap|) - 1
      ensures r.Some? ==> multiset(heap) == old(multiset(heap)) - multiset{r.value}
      ensures r.Some? ==> forall x :: x in heap ==> !compare(x, r.value)
    {
      r := Pop();
    }

    /** Iterating the heap: `next()` until nil yields every element in comparator order and empties it. */
    method Drain() returns (out: seq<T>)
      requires Valid()
      modifies this
      ensures Valid() && heap == []
      ensures multiset(out) == old(multiset(heap))
      ensures Sorted(compare, out)
    {
      out := [];
      while true
        invariant Valid()
        invariant multiset(out) + multiset(heap) == old(multiset(heap))
        invariant Sorted(compare, out)
        invariant forall i, x :: 0 <= i < |out| && x in heap ==> !compare(x, out[i])
        decreases |heap|
      {
        ghost var was := heap;
        var e := Next();
        if e.None? {
          break;
        }
        assert e.value in was;
        forall i, j | 0 <= i < j < |out| + 1 ensures !compare((out + [e.value])[j], (out + [e.value])[i]) {
          if j == |out| {
            assert (out + [e.value])[j] == e.value;
          }
        }
        out := out + [e.value];
      }
    }
  }
}

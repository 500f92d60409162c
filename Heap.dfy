/**
 * Heap.swift: a binary heap over a growable array, ordered by a comparator
 * fixed at construction. `push` appends and sifts up (`swimHeap`), `pop`
 * swaps the first element with the last, removes it and sifts down
 * (`sinkHeap`), and iteration is repeated `pop`.
 */
module Heap {
  import opened Wrappers
  import opened HeapOrder

  class Heap<T(==, !new)> {
    const comparator: (T, T) -> bool
    var contents: seq<T>

    ghost predicate Valid()
      reads this
    {
      StrictWeakOrder(comparator) && IsHeap(comparator, contents)
    }

    /** `init(comparator:)`: an empty heap. */
    constructor (comparator: (T, T) -> bool)
      requires StrictWeakOrder(comparator)
      ensures Valid() && this.comparator == comparator && contents == []
    {
      this.comparator := comparator;
      contents := [];
    }

    /** `init(comparator:contents:)`: pushes the given elements one by one, so the heap holds exactly them. */
    constructor FromContents(comparator: (T, T) -> bool, contents: seq<T>)
      requires StrictWeakOrder(comparator)
      ensures Valid() && this.comparator == comparator
      ensures multiset(this.contents) == multiset(contents)
    {
      this.comparator := comparator;
      this.contents := [];
      new;
      var i := 0;
      while i < |contents|
        invariant 0 <= i <= |contents|
        invariant Valid() && this.comparator == comparator
        invariant multiset(this.contents) == multiset(contents[..i])
      {
        Push(contents[i]);
        assert contents[..i + 1] == contents[..i] + [contents[i]];
        i := i + 1;
      }
      assert contents[..i] == contents;
    }

    function IsEmpty(): (b: bool)
      reads this
      ensures b <==> |contents| == 0
      ensures b <==> Peek().None?
    {
      |contents| == 0
    }

    /** A linear scan for an element equal to `element`. */
    function Contains(element: T): (b: bool)
      reads this
      ensures b <==> exists i :: 0 <= i < |contents| && contents[i] == element
    {
      element in contents
    }

    /**
     * `swimHeap(index:)`: moves the element at `index` up while its parent
     * does not belong above it. Only positions on the path from `index` to the
     * root change.
     */
    method SwimHeap(index: nat)
      requires StrictWeakOrder(comparator)
      requires index < |contents| && HeapExceptUp(comparator, contents, index)
      modifies this
      ensures Valid()
      ensures |contents| == old(|contents|) && multiset(contents) == old(multiset(contents))
      ensures forall j :: 0 <= j < |contents| && !AncestorOrSelf(j, index) ==> contents[j] == old(contents[j])
    {
      var i: nat := index;
      while i > 0
        invariant i < |contents| && AncestorOrSelf(i, index)
        invariant HeapExceptUp(comparator, contents, i)
        invariant |contents| == old(|contents|) && multiset(contents) == old(multiset(contents))
        invariant forall j :: 0 <= j < |contents| && !AncestorOrSelf(j, index) ==> contents[j] == old(contents[j])
      {
        var parent := Parent(i);
        if comparator(contents[parent], contents[i]) {
          break;
        }
        SwapUp(comparator, contents, i);
        AncestorOfParent(i, index);
        contents := Swap(contents, parent, i);
        i := parent;
      }
      StopUp(comparator, contents, i);
    }

    /**
     * `sinkHeap(index:)`: swaps the element at `index` with the child that
     * belongs above it (the right child only when it also belongs above the
     * left one) and continues from that child; stops when neither child does.
     */
    method SinkHeap(index: nat)
      requires StrictWeakOrder(comparator)
      requires HeapExceptDown(comparator, contents, index)
      modifies this
      ensures Valid()
      ensures |contents| == old(|contents|) && multiset(contents) == old(multiset(contents))
      decreases |contents| - index
    {
      var left := index * 2 + 1;
      var right := index * 2 + 2;
      var smallest := index;
      var count := |contents|;
      if left < count && comparator(contents[left], contents[smallest]) {
        smallest := left;
      }
      if right < count && comparator(contents[right], contents[smallest]) {
        smallest := right;
      }
      if smallest != index {
        Asymmetric(comparator, contents[smallest], contents[index]);
        SwapDown(comparator, contents, index, smallest);
        contents := Swap(contents, index, smallest);
        SinkHeap(smallest);
      } else {
        StopDown(comparator, contents, index);
      }
    }

    method Push(element: T)
      requires Valid()
      modifies this
      ensures Valid()
      ensures |contents| == old(|contents|) + 1
      ensures multiset(contents) == old(multiset(contents)) + multiset{element}
    {
      contents := contents + [element];
      if |contents| > 1 {
        SwimHeap(|contents| - 1);
      }
    }

    /**
     * Removes and returns the first element: the one that no remaining
     * element belongs above. An empty heap returns None and stays as it is.
     */
    method Pop() returns (r: Option<T>)
      requires Valid()
      modifies this
      ensures Valid()
      ensures old(contents) == [] ==> r.None? && contents == old(contents)
      ensures old(contents) != [] ==> r == Some(old(contents)[0])
      ensures r.Some? ==> |contents| == old(|contents|) - 1
      ensures r.Some? ==> multiset(contents) == old(multiset(contents)) - multiset{r.value}
      ensures r.Some? ==> forall x :: x in contents ==> !comparator(x, r.value)
      ensures old(|contents|) == 1 ==> contents == []
    {
      if |contents| == 0 {
        return None;
      }
      ghost var was := contents;
      if |contents| == 1 {
        r := Some(contents[0]);
        contents := contents[1..];
        return;
      }
      SwapLastAndDrop(comparator, contents);
      contents := Swap(contents, 0, |contents| - 1);
      var pop := contents[|contents| - 1];
      contents := contents[..|contents| - 1];
      ghost var dropped := contents;
      assert multiset(dropped) == multiset(was) - multiset{was[0]};
      SinkHeap(0);
      assert multiset(contents) == multiset(dropped);
      r := Some(pop);
      RestIsNotBefore(comparator, was, contents);
    }

    /** The first element without removing it, or None when the heap is empty. */
    function Peek(): (r: Option<T>)
      reads this
      ensures r.None? <==> |contents| == 0
      ensures r.Some? ==> r.value == contents[0]
    {
      if |contents| == 0 then None else Some(contents[0])
    }

    /** `next()` of the iterator conformance: it pops. */
    method Next() returns (r: Option<T>)
      requires Valid()
      modifies this
      ensures Valid()
      ensures old(contents) == [] ==> r.None? && contents == old(contents)
      ensures old(contents) != [] ==> r == Some(old(contents)[0])
      ensures r.Some? ==> |contents| == old(|contents|) - 1
      ensures r.Some? ==> multiset(contents) == old(multiset(contents)) - multiset{r.value}
      ensures r.Some? ==> forall x :: x in contents ==> !comparator(x, r.value)
    {
      r := Pop();
    }

    /** Calling `next()` until it returns nil yields every element, in comparator order, and empties the heap. */
    method Drain() returns (out: seq<T>)
      requires Valid()
      modifies this
      ensures Valid() && contents == []
      ensures multiset(out) == old(multiset(contents))
      ensures Sorted(comparator, out)
    {
      out := [];
      while true
        invariant Valid()
        invariant multiset(out) + multiset(contents) == old(multiset(contents))
        invariant Sorted(comparator, out)
        invariant forall i, x :: 0 <= i < |out| && x in contents ==> !comparator(x, out[i])
        decreases |contents|
      {
        ghost var was := contents;
        var e := Next();
        if e.None? {
          break;
        }
        assert e.value in was;
        forall i, j | 0 <= i < j < |out| + 1 ensures !comparator((out + [e.value])[j], (out + [e.value])[i]) {
          if j == |out| {
            assert (out + [e.value])[j] == e.value;
          }
        }
        out := out + [e.value];
      }
    }
  }

  /** An element that nothing left behind is smaller than is the least element. */
  lemma LeastIs(m: multiset<int>, rest: seq<int>, r: int, least: int)
    requires r in m && least in m
    requires forall y :: y in m ==> least <= y
    requires multiset(rest) == m - multiset{r}
    requires forall x :: x in rest ==> !Less(x, r)
    ensures r == least
  {
    assert least != r ==> multiset(rest)[least] == m[least];
    assert least != r ==> least in rest;
  }

  /** The `<` comparator on integers, the one a min-heap uses. */
  function Less(a: int, b: int): bool {
    a < b
  }

  /** Pushing 5, 3, 8, 1, 9 into a heap ordered by `<` ... */
  method PushScenario() returns (h: Heap<int>)
    ensures fresh(h) && h.Valid() && h.comparator == Less
    ensures multiset(h.contents) == multiset{1, 3, 5, 8, 9}
  {
    h := new Heap<int>(Less);
    h.Push(5);
    h.Push(3);
    h.Push(8);
    h.Push(1);
    h.Push(9);
  }

  /** One pop from a `<`-heap holding `least` and `rest`, where `least` is below all of `rest`. */
  method PopLeast(h: Heap<int>, ghost least: int, ghost rest: multiset<int>) returns (x: Option<int>)
    requires h.Valid() && h.comparator == Less
    requires multiset(h.contents) == multiset{least} + rest
    requires forall y :: y in rest ==> least < y
    modifies h
    ensures h.Valid() && h.comparator == Less
    ensures x == Some(least) && multiset(h.contents) == rest
  {
    x := h.Pop();
    assert h.contents != [] ==> h.contents[0] in multiset(h.contents);
    LeastIs(multiset{least} + rest, h.contents, x.value, least);
  }

  /** ... pops 1, 3, 5, 8, 9 and then nil. */
  method MinHeapScenario() returns (popped: seq<Option<int>>)
    ensures popped == [Some(1), Some(3), Some(5), Some(8), Some(9), None]
  {
    var h := PushScenario();
    var x := PopLeast(h, 1, multiset{3, 5, 8, 9});
    var y := PopLeast(h, 3, multiset{5, 8, 9});
    var rest := PopLastThree(h);
    popped := [x, y] + rest;
  }

  /** The second half of the scenario: 5, 8 and 9 come out in that order, then nil. */
  method PopLastThree(h: Heap<int>) returns (popped: seq<Option<int>>)
    requires h.Valid() && h.comparator == Less
    requires multiset(h.contents) == multiset{5, 8, 9}
    modifies h
    ensures popped == [Some(5), Some(8), Some(9), None] && h.IsEmpty()
  {
    var x := PopLeast(h, 5, multiset{8, 9});
    var y := PopLeast(h, 8, multiset{9});
    var z := PopLeast(h, 9, multiset{});
    assert h.IsEmpty();
    var w := h.Pop();
    popped := [x, y, z, w];
  }
}

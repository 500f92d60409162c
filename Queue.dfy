/**
 * Queue.swift: a FIFO queue over a growable array. `push` appends, `pop`
 * takes the first element, `invalidate` drops the first occurrence of an
 * element, and the queue is also a collection indexed from 0.
 */
module Queue {
  import opened Wrappers
  import opened SeqSearch

  class Queue<E(==)> {
    var contents: seq<E>

    /** `init()`. */
    constructor ()
      ensures contents == []
    {
      contents := [];
    }

    /** `init(elements:)` and the array-literal initialiser: the queue holds exactly the given elements, first element first. */
    constructor FromElements(elements: seq<E>)
      ensures contents == elements
    {
      contents := elements;
    }

    function Count(): (n: nat)
      reads this
      ensures n == |contents|
      ensures n == EndIndex() - StartIndex()
    {
      |contents|
    }

    function IsEmpty(): (b: bool)
      reads this
      ensures b <==> Count() == 0
      ensures b <==> Peek().None?
    {
      |contents| == 0
    }

    method Push(element: E)
      modifies this
      ensures contents == old(contents) + [element]
      ensures Count() == old(Count()) + 1
    {
      contents := contents + [element];
    }

    method Pop() returns (r: Option<E>)
      modifies this
      ensures old(contents) == [] ==> r.None? && contents == old(contents)
      ensures old(contents) != [] ==> r == Some(old(contents)[0]) && contents == old(contents)[1..]
      ensures r.Some? ==> old(contents) == [r.value] + contents
    {
      if |contents| == 0 {
        return None;
      }
      r := Some(contents[0]);
      contents := contents[1..];
    }

    /** Drops the first occurrence of `element`; nothing changes when it is absent or the queue is empty. */
    method Invalidate(element: E)
      modifies this
      ensures contents == RemoveFirst(old(contents), element)
    {
      if |contents| == 0 {
        return;
      }
      match IndexOf(contents, element) {
        case None =>
        case Some(index) =>
          contents := RemoveAt(contents, index);
      }
    }

    /** The first element, without removing it. */
    function Peek(): (r: Option<E>)
      reads this
      ensures r.None? <==> |contents| == 0
      ensures r.Some? ==> r.value == contents[0]
    {
      if |contents| == 0 then None else Some(contents[0])
    }

    function StartIndex(): (i: nat)
      reads this
      ensures i == 0
    {
      0
    }

    function EndIndex(): (i: nat)
      reads this
      ensures i == |contents|
    {
      |contents|
    }

    /** `index(after:)`. */
    function IndexAfter(i: int): (j: int)
      ensures j == i + 1
    {
      i + 1
    }

    /** `self[index]`: the element at that position, counted from the front. */
    function At(index: nat): (e: E)
      reads this
      requires StartIndex() <= index < EndIndex()
      ensures e == contents[index]
    {
      contents[index]
    }
  }

  /** Elements leave the queue in the order they were pushed: push a, push b, pop, push c, then pop until nil. */
  method FirstInFirstOut<E(==)>(a: E, b: E, c: E) returns (popped: seq<Option<E>>)
    ensures popped == [Some(a), Some(b), Some(c), None]
  {
    var q := new Queue<E>();
    q.Push(a);
    q.Push(b);
    var x := q.Pop();
    q.Push(c);
    var y := q.Pop();
    var z := q.Pop();
    var w := q.Pop();
    popped := [x, y, z, w];
  }
}

/**
 * UniqueQueue.swift: a FIFO queue that refuses an element it already holds.
 * The array `contents` keeps the order and the set `uniques` answers
 * membership; every operation updates both together.
 */
module UniqueQueue {
  import opened Wrappers
  import opened SeqSearch

  class UniqueQueue<E(==)> {
    var contents: seq<E>
    var uniques: set<E>

    /** The set mirrors the array, and the array holds each element once. */
    ghost predicate Valid()
      reads this
    {
      uniques == Elements(contents) && NoDuplicates(contents)
    }

    constructor ()
      ensures Valid() && contents == []
    {
      contents := [];
      uniques := {};
    }

    /**
     * The array-literal initialiser as written: it keeps every element of the
     * literal, so a literal with a repeat breaks the no-duplicates half of Valid().
     */
    constructor FromArrayLiteral(elements: seq<E>)
      ensures uniques == Elements(elements)
      ensures contents == ArrayLiteralContents(elements) == elements
    {
      uniques := set x | x in elements;
      contents := ArrayLiteralContents(elements);
    }

    /** The array-literal initialiser with the repeat filter it evidently intended. */
    constructor FromArrayLiteralFixed(elements: seq<E>)
      ensures Valid()
      ensures contents == Deduplicate(elements, {})
      ensures uniques == Elements(elements)
      ensures NoDuplicates(elements) ==> contents == elements
    {
      contents := Deduplicate(elements, {});
      uniques := set x | x in elements;
      if NoDuplicates(elements) {
        DeduplicateKeepsDistinct(elements, {});
      }
    }

    /** Appends `element` unless it is already queued; otherwise neither field changes. */
    method Push(element: E)
      requires Valid()
      modifies this
      ensures Valid()
      ensures element in old(uniques) ==> contents == old(contents) && uniques == old(uniques)
      ensures element !in old(uniques) ==> contents == old(contents) + [element] && uniques == old(uniques) + {element}
    {
      if element !in uniques {
        contents := contents + [element];
        uniques := uniques + {element};
      }
    }

    method Pop() returns (r: Option<E>)
      requires Valid()
      modifies this
      ensures Valid()
      ensures old(contents) == [] ==> r.None? && contents == old(contents) && uniques == old(uniques)
      ensures old(contents) != [] ==> r == Some(old(contents)[0]) && contents == old(contents)[1..]
                                      && uniques == old(uniques) - {r.value}
    {
      if |contents| == 0 {
        return None;
      }
      var element := contents[0];
      assert contents == [element] + contents[1..];
      contents := contents[1..];
      uniques := uniques - {element};
      r := Some(element);
    }

    /** Drops `element` from both fields; the remaining elements keep their order. */
    method Invalidate(element: E)
      requires Valid()
      modifies this
      ensures Valid()
      ensures contents == RemoveFirst(old(contents), element)
      ensures uniques == old(uniques) - {element}
    {
      if |contents| == 0 {
        return;
      }
      match IndexOf(contents, element) {
        case None =>
        case Some(index) =>
          RemoveFirstNoDuplicates(contents, element);
          contents := RemoveAt(contents, index);
          uniques := uniques - {element};
      }
    }

    function Peek(): (r: Option<E>)
      reads this
      ensures r.None? <==> |contents| == 0
      ensures r.Some? ==> r.value == contents[0]
    {
      if |contents| == 0 then None else Some(contents[0])
    }

    function StartIndex(): (i: nat)
      reads this
      ensures i == 0
    {
      0
    }

    function EndIndex(): (i: nat)
      reads this
      ensures i == |contents|
    {
      |contents|
    }

    function At(index: nat): (e: E)
      reads this
      requires StartIndex() <= index < EndIndex()
      ensures e == contents[index]
    {
      contents[index]
    }

    /** `index(after:)`. */
    function IndexAfter(i: int): (j: int)
      ensures j == i + 1
    {
      i + 1
    }
  }

  /** `elements.filter(p)`. */
  function Filter<E>(elements: seq<E>, p: E -> bool): (r: seq<E>)
    ensures forall x :: x in r ==> x in elements && p(x)
  {
    if elements == [] then []
    else if p(elements[0]) then [elements[0]] + Filter(elements[1..], p)
    else Filter(elements[1..], p)
  }

  /** A filter whose test accepts every element returns its input unchanged. */
  lemma {:induction false} FilterAll<E>(elements: seq<E>, p: E -> bool)
    requires forall x :: x in elements ==> p(x)
    ensures Filter(elements, p) == elements
  {
    if elements != [] {
      assert forall x :: x in elements[1..] ==> x in elements;
      FilterAll(elements[1..], p);
    }
  }

  /**
   * The array-literal initialiser as written: `uniques` is built from all the
   * elements first, so the filter that was meant to drop repeats keeps every
   * element and `contents` is the literal itself, duplicates included.
   */
  function ArrayLiteralContents<E(==)>(elements: seq<E>): (r: seq<E>)
    ensures r == elements
  {
    var uniques := set x | x in elements;
    FilterAll(elements, x => x in uniques);
    Filter(elements, x => x in uniques)
  }

  /** The literal `[a, a]` builds a queue holding `a` twice. */
  lemma ArrayLiteralKeepsDuplicates<E>(a: E)
    ensures !NoDuplicates(ArrayLiteralContents([a, a]))
  {
    assert ArrayLiteralContents([a, a])[0] == ArrayLiteralContents([a, a])[1];
  }

  /** Distinct pushes come out in push order, and a repeated push changes nothing: push a, b, a, then pop until nil. */
  method FirstInFirstOut<E(==)>(a: E, b: E) returns (held: seq<E>, popped: seq<Option<E>>)
    requires a != b
    ensures held == [a, b]
    ensures popped == [Some(a), Some(b), None]
  {
    var q := new UniqueQueue<E>();
    q.Push(a);
    q.Push(b);
    q.Push(a);
    held := q.contents;
    var x := q.Pop();
    var y := q.Pop();
    var z := q.Pop();
    popped := [x, y, z];
  }
}

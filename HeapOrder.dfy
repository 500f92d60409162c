/**
 * What the two array-backed binary heaps (Heap.swift and KFHeap.swift) share:
 * the index arithmetic of a complete binary tree stored in an array, the heap
 * property relative to an injected comparator, and the facts about both that
 * sift-up, sift-down and pop rely on.
 *
 * `before(x, y)` is the comparator: true when `x` belongs above `y`.
 */
module HeapOrder {

  /** The comparator has to be a strict weak order, as `<` is. */
  ghost predicate StrictWeakOrder<T(!new)>(before: (T, T) -> bool) {
    && (forall x :: !before(x, x))
    && (forall x, y, z :: before(x, y) && before(y, z) ==> before(x, z))
    && (forall x, y, z :: !before(x, y) && !before(y, z) ==> !before(x, z))
  }

  /** `(i - 1) >> 1`: the shift and the division agree on the non-negative `i - 1`. */
  function Parent(i: nat): (p: nat)
    requires i > 0
    ensures p < i
    ensures i == 2 * p + 1 || i == 2 * p + 2
  {
    (i - 1) / 2
  }

  /** No element should be above its parent. */
  ghost predicate IsHeap<T>(before: (T, T) -> bool, s: seq<T>) {
    forall i :: 0 < i < |s| ==> !before(s[i], s[Parent(i)])
  }

  /**
   * The state sift-up works in: the heap property holds except between
   * position `k` and its parent, and the children of `k` may stay below the
   * parent of `k`.
   */
  ghost predicate HeapExceptUp<T>(before: (T, T) -> bool, s: seq<T>, k: nat) {
    && (forall i :: 0 < i < |s| && i != k ==> !before(s[i], s[Parent(i)]))
    && (forall i :: 0 < i < |s| && k > 0 && Parent(i) == k ==> !before(s[i], s[Parent(k)]))
  }

  /**
   * The state sift-down works in: the heap property holds except between
   * position `k` and its children, and those children may stay below the
   * parent of `k`.
   */
  ghost predicate HeapExceptDown<T>(before: (T, T) -> bool, s: seq<T>, k: nat) {
    && (forall i :: 0 < i < |s| && Parent(i) != k ==> !before(s[i], s[Parent(i)]))
    && (forall i :: 0 < i < |s| && k > 0 && Parent(i) == k ==> !before(s[i], s[Parent(k)]))
  }

  /** `a` is on the path from `i` to the root (or is `i` itself). */
  predicate AncestorOrSelf(a: nat, i: nat)
    decreases i
  {
    a == i || (i > 0 && AncestorOrSelf(a, Parent(i)))
  }

  /** The array after `swap(&a[i], &a[j])`. */
  function Swap<T>(s: seq<T>, i: nat, j: nat): (r: seq<T>)
    requires i < |s| && j < |s|
    ensures |r| == |s| && r[i] == s[j] && r[j] == s[i]
    ensures forall k :: 0 <= k < |s| && k != i && k != j ==> r[k] == s[k]
    ensures multiset(r) == multiset(s)
  {
    s[i := s[j]][j := s[i]]
  }

  /** The parent of a position on the path to the root is on that path too. */
  lemma {:induction false} AncestorOfParent(a: nat, i: nat)
    requires AncestorOrSelf(a, i) && a > 0
    ensures AncestorOrSelf(Parent(a), i)
    decreases i
  {
    if a != i {
      AncestorOfParent(a, Parent(i));
    }
  }

  /**
   * One round of sift-up: when the element at `k` does not sit below its
   * parent, swapping the two moves the defect one level up.
   */
  lemma SwapUp<T(!new)>(before: (T, T) -> bool, s: seq<T>, k: nat)
    requires StrictWeakOrder(before)
    requires 0 < k < |s| && HeapExceptUp(before, s, k)
    requires !before(s[Parent(k)], s[k])
    ensures HeapExceptUp(before, Swap(s, Parent(k), k), Parent(k))
  {
    var p := Parent(k);
    var r := Swap(s, p, k);
    forall i | 0 < i < |r| && i != p ensures !before(r[i], r[Parent(i)]) {
      if i == k {
      } else if Parent(i) == k {
        assert r[i] == s[i] && r[k] == s[p];
      } else if Parent(i) == p {
        assert r[i] == s[i] && r[p] == s[k];
        assert !before(s[i], s[p]);
      } else if i != p {
        assert r[i] == s[i];
      }
    }
    forall i | 0 < i < |r| && p > 0 && Parent(i) == p ensures !before(r[i], r[Parent(p)]) {
      assert r[Parent(p)] == s[Parent(p)];
      assert !before(s[p], s[Parent(p)]);
      if i == k {
        assert r[i] == s[p];
      } else {
        assert r[i] == s[i] && !before(s[i], s[p]);
      }
    }
  }

  /** A strict weak order is asymmetric. */
  lemma Asymmetric<T(!new)>(before: (T, T) -> bool, x: T, y: T)
    requires StrictWeakOrder(before) && before(x, y)
    ensures !before(y, x)
  {
    assert !before(x, x);
  }

  /** Sift-up stops once the parent belongs above the element at `k`: the heap is whole again. */
  lemma StopUp<T(!new)>(before: (T, T) -> bool, s: seq<T>, k: nat)
    requires StrictWeakOrder(before)
    requires k < |s| && HeapExceptUp(before, s, k)
    requires k > 0 ==> before(s[Parent(k)], s[k])
    ensures IsHeap(before, s)
  {
  }

  /** One round of sift-down: swapping `k` with its foremost child moves the defect to that child. */
  lemma SwapDown<T>(before: (T, T) -> bool, s: seq<T>, k: nat, m: nat)
    requires k < |s| && HeapExceptDown(before, s, k)
    requires m == 2 * k + 1 || m == 2 * k + 2
    requires m < |s| && !before(s[k], s[m])
    requires m == 2 * k + 2 ==> !before(s[2 * k + 1], s[m])
    requires m == 2 * k + 1 && 2 * k + 2 < |s| ==> !before(s[2 * k + 2], s[m])
    ensures HeapExceptDown(before, Swap(s, k, m), m)
  {
    var r := Swap(s, k, m);
    assert Parent(m) == k;
    forall i | 0 < i < |r| && Parent(i) != m ensures !before(r[i], r[Parent(i)]) {
      if i == m {
      } else if Parent(i) == k {
        assert r[i] == s[i] && r[k] == s[m];
      } else if i == k {
        assert r[i] == s[m] && r[Parent(k)] == s[Parent(k)];
      } else {
        assert r[i] == s[i] && r[Parent(i)] == s[Parent(i)];
      }
    }
    forall i | 0 < i < |r| && m > 0 && Parent(i) == m ensures !before(r[i], r[Parent(m)]) {
      assert r[i] == s[i];
    }
  }

  /** Sift-down stops when neither child belongs above the element at `k`: the heap is whole again. */
  lemma StopDown<T(!new)>(before: (T, T) -> bool, s: seq<T>, k: nat)
    requires HeapExceptDown(before, s, k)
    requires 2 * k + 1 < |s| ==> !before(s[2 * k + 1], s[k])
    requires 2 * k + 2 < |s| ==> !before(s[2 * k + 2], s[k])
    ensures IsHeap(before, s)
  {
    forall i | 0 < i < |s| ensures !before(s[i], s[Parent(i)]) {
      if Parent(i) == k {
        assert i == 2 * k + 1 || i == 2 * k + 2;
      }
    }
  }

  /**
   * Pop's preparation: after swapping the first element with the last and
   * dropping the last, only the new first element can be out of place.
   */
  lemma SwapLastAndDrop<T>(before: (T, T) -> bool, s: seq<T>)
    requires IsHeap(before, s) && |s| > 0
    ensures HeapExceptDown(before, Swap(s, 0, |s| - 1)[..|s| - 1], 0)
    ensures multiset(Swap(s, 0, |s| - 1)[..|s| - 1]) == multiset(s) - multiset{s[0]}
  {
    var r := Swap(s, 0, |s| - 1);
    assert r == r[..|s| - 1] + [s[0]];
    assert multiset(r) == multiset(r[..|s| - 1]) + multiset{s[0]};
  }

  /** A heap's first element is one that no other element belongs above. */
  lemma {:induction false} RootIsFirst<T(!new)>(before: (T, T) -> bool, s: seq<T>, j: nat)
    requires StrictWeakOrder(before) && IsHeap(before, s)
    requires j < |s|
    ensures !before(s[j], s[0])
    decreases j
  {
    if j > 0 {
      RootIsFirst(before, s, Parent(j));
    }
  }

  /** Every element of a non-empty heap sorts no earlier than its first element. */
  lemma RootIsMinimal<T(!new)>(before: (T, T) -> bool, s: seq<T>)
    requires StrictWeakOrder(before) && IsHeap(before, s) && |s| > 0
    ensures forall x :: x in s ==> !before(x, s[0])
  {
    forall x | x in s ensures !before(x, s[0]) {
      var j :| 0 <= j < |s| && s[j] == x;
      RootIsFirst(before, s, j);
    }
  }

  /** What is left after taking a heap's first element holds nothing that belongs above it. */
  lemma RestIsNotBefore<T(!new)>(before: (T, T) -> bool, s: seq<T>, rest: seq<T>)
    requires StrictWeakOrder(before) && IsHeap(before, s) && |s| > 0
    requires multiset(rest) == multiset(s) - multiset{s[0]}
    ensures forall x :: x in rest ==> !before(x, s[0])
  {
    forall x | x in rest ensures !before(x, s[0]) {
      assert x in multiset(rest);
      var j :| 0 <= j < |s| && s[j] == x;
      RootIsFirst(before, s, j);
    }
  }

  /** `s` lists its elements in comparator order: none belongs above an earlier one. */
  ghost predicate Sorted<T>(before: (T, T) -> bool, s: seq<T>) {
    forall i, j :: 0 <= i < j < |s| ==> !before(s[j], s[i])
  }
}

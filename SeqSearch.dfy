/**
 * The Swift standard-library operations the queues rely on:
 * `Array.index(of:)`, which returns the position of the first element equal to
 * the argument, and `Array.remove(at:)`; and the sequence a queue that drops
 * repeated elements ends up holding.
 */
module SeqSearch {
  import opened Wrappers

  /** Position of the first occurrence of `e` in `s`, or None. */
  function IndexOf<T(==)>(s: seq<T>, e: T): (r: Option<nat>)
    ensures r.None? <==> e !in s
    ensures r.Some? ==> r.value < |s| && s[r.value] == e && e !in s[..r.value]
  {
    if |s| == 0 then None
    else if s[0] == e then Some(0)
    else match IndexOf(s[1..], e)
      case None => None
      case Some(i) => assert s[1..][..i] == s[1..i + 1]; Some(i + 1)
  }

  /** `s` with the element at position `i` taken out (`Array.remove(at:)`). */
  function RemoveAt<T>(s: seq<T>, i: nat): (r: seq<T>)
    requires i < |s|
    ensures |r| == |s| - 1
    ensures forall k :: 0 <= k < i ==> r[k] == s[k]
    ensures forall k :: i <= k < |r| ==> r[k] == s[k + 1]
    ensures multiset(r) == multiset(s) - multiset{s[i]}
  {
    assert s == s[..i] + [s[i]] + s[i + 1..];
    s[..i] + s[i + 1..]
  }

  /** `s` without its first occurrence of `e`; `s` itself when `e` does not occur. */
  function RemoveFirst<T(==)>(s: seq<T>, e: T): (r: seq<T>)
    ensures e !in s ==> r == s
    ensures e in s ==> |r| == |s| - 1 && multiset(r) == multiset(s) - multiset{e}
  {
    match IndexOf(s, e)
    case None => s
    case Some(i) => RemoveAt(s, i)
  }

  /** Only the first occurrence goes: everything before it stays in place and everything after it shifts down by one. */
  lemma RemoveFirstKeepsOrder<T>(s: seq<T>, e: T, i: nat)
    requires i < |s| && s[i] == e && e !in s[..i]
    ensures RemoveFirst(s, e) == s[..i] + s[i + 1..]
  {
  }

  /** `s[i]`, as a term of its own. */
  ghost function At<T>(s: seq<T>, i: int): T
    requires 0 <= i < |s|
  {
    s[i]
  }

  /**
   * Duplicate-freedom, stated over `At` so that it is only instantiated
   * where `At` terms are written out, which `Distinctness` does.
   */
  ghost predicate Distinct<T>(s: seq<T>) {
    forall i, j {:trigger At(s, i), At(s, j)} :: 0 <= i < j < |s| ==> At(s, i) != At(s, j)
  }

  /** The two statements of duplicate-freedom agree. */
  lemma Distinctness<T>(s: seq<T>)
    ensures Distinct(s) <==> NoDuplicates(s)
  {
    assert forall i :: 0 <= i < |s| ==> At(s, i) == s[i];
  }

  /** Removing an element keeps a duplicate-free sequence duplicate-free and drops exactly that element from its set. */
  lemma RemoveFirstNoDuplicates<T>(s: seq<T>, e: T)
    requires NoDuplicates(s)
    ensures NoDuplicates(RemoveFirst(s, e))
    ensures (set x | x in RemoveFirst(s, e)) == (set x | x in s) - {e}
  {
    var r := RemoveFirst(s, e);
    if e in s {
      var i := IndexOf(s, e).value;
      forall a, b | 0 <= a < b < |r| ensures r[a] != r[b] {
        var a' := if a < i then a else a + 1;
        var b' := if b < i then b else b + 1;
        assert r[a] == s[a'] && r[b] == s[b'];
      }
      forall x ensures x in r <==> x in s && x != e {
        if x in r {
          var k :| 0 <= k < |r| && r[k] == x;
          var k' := if k < i then k else k + 1;
          assert s[k'] == x && k' != i;
        }
        if x in s && x != e {
          var k :| 0 <= k < |s| && s[k] == x;
          assert k != i;
          if k < i { assert r[k] == x; } else { assert r[k - 1] == x; }
        }
      }
    }
  }

  /** Taking a position out keeps a sequence duplicate-free. */
  lemma RemoveAtDistinct<T>(s: seq<T>, i: nat)
    requires i < |s| && NoDuplicates(s)
    ensures NoDuplicates(RemoveAt(s, i))
  {
    var r := RemoveAt(s, i);
    forall a, b | 0 <= a < b < |r| ensures r[a] != r[b] {
      var a' := if a < i then a else a + 1;
      var b' := if b < i then b else b + 1;
      assert r[a] == s[a'] && r[b] == s[b'];
    }
  }

  /** Taking a position out of a duplicate-free sequence drops exactly the element there. */
  lemma RemoveAtDrops<T>(s: seq<T>, i: nat)
    requires i < |s| && NoDuplicates(s)
    ensures s[i] !in RemoveAt(s, i)
  {
    var r := RemoveAt(s, i);
    forall k | 0 <= k < |r| ensures r[k] != s[i] {
      if k < i { assert r[k] == s[k]; } else { assert r[k] == s[k + 1]; }
    }
  }

  /** The set of the elements of `s`. */
  ghost function Elements<E>(s: seq<E>): set<E> {
    set x | x in s
  }

  /** The first occurrence of each element of `elements` not in `seen`, in order: what a deduplicating queue built from `elements` holds. */
  function Deduplicate<E(==)>(elements: seq<E>, seen: set<E>): (r: seq<E>)
    ensures NoDuplicates(r)
    ensures Elements(r) == Elements(elements) - seen
    ensures forall x :: x in r ==> x !in seen
  {
    if elements == [] then []
    else
      assert Elements(elements) == {elements[0]} + Elements(elements[1..]);
      if elements[0] in seen then Deduplicate(elements[1..], seen)
      else
        var rest := Deduplicate(elements[1..], seen + {elements[0]});
        assert Elements([elements[0]] + rest) == {elements[0]} + Elements(rest);
        [elements[0]] + rest
  }

  /** Deduplicating a sequence that has no repeats returns it unchanged. */
  lemma {:induction false} DeduplicateKeepsDistinct<E>(elements: seq<E>, seen: set<E>)
    requires NoDuplicates(elements)
    requires forall x :: x in elements ==> x !in seen
    ensures Deduplicate(elements, seen) == elements
  {
    if elements != [] {
      assert forall x :: x in elements[1..] ==> x in elements && x != elements[0];
      DeduplicateKeepsDistinct(elements[1..], seen + {elements[0]});
    }
  }
  /**
   * An independent reading of "first occurrences, in order": going from the back, an entry
   * `s[i]` is kept exactly when it does not occur in `s[..i]`.
   */
  ghost function FirstOccurrences<E>(s: seq<E>): seq<E> {
    if s == [] then []
    else FirstOccurrences(s[..|s| - 1]) + (if s[|s| - 1] in s[..|s| - 1] then [] else [s[|s| - 1]])
  }

  /** Deduplicating a concatenation: the second part is deduplicated against all of the first. */
  lemma {:induction false} DeduplicateAppend<E>(p: seq<E>, q: seq<E>, seen: set<E>)
    ensures Deduplicate(p + q, seen) == Deduplicate(p, seen) + Deduplicate(q, seen + Elements(p))
  {
    if p == [] {
      assert p + q == q;
      assert seen + Elements(p) == seen;
    } else {
      assert (p + q)[0] == p[0] && (p + q)[1..] == p[1..] + q;
      assert Elements(p) == {p[0]} + Elements(p[1..]);
      if p[0] in seen {
        DeduplicateAppend(p[1..], q, seen);
        assert seen + Elements(p[1..]) == seen + Elements(p);
      } else {
        DeduplicateAppend(p[1..], q, seen + {p[0]});
        assert seen + {p[0]} + Elements(p[1..]) == seen + Elements(p);
      }
    }
  }

  /** `Deduplicate` from the empty set keeps exactly the entries not seen earlier in the sequence, in order. */
  lemma {:induction false} DeduplicateIsFirstOccurrences<E>(s: seq<E>)
    ensures Deduplicate(s, {}) == FirstOccurrences(s)
  {
    if s != [] {
      var init, last := s[..|s| - 1], s[|s| - 1];
      assert s == init + [last];
      DeduplicateAppend(init, [last], {});
      DeduplicateIsFirstOccurrences(init);
      assert {} + Elements(init) == Elements(init);
      assert last in init <==> last in Elements(init);
    }
  }
}

/**
 * A rooted tree of keyed nodes, as `Lineage` (Lineage.swift) and `KFTreeNode` (KFTreeMap.swift)
 * both build it: each node holds an element, a weak `parent` link and its children.
 *
 * A node is a value here: its element, whether its `parent` link names the node above it
 * (`linked`; otherwise the link is nil), and its children in order. A node is reached by its
 * path, the sequence of child indices from the top.
 */
module RootedTree {
  import opened Wrappers

  datatype Node<E> = Node(element: E, linked: bool, children: seq<Node<E>>)

  type Path = seq<nat>

  /** `isLeaf`: no children. */
  predicate IsLeaf<E>(n: Node<E>) {
    |n.children| == 0
  }

  /** `isOrigin` (`isRoot` on a tree node): the `parent` link is nil. */
  predicate IsOrigin<E>(n: Node<E>) {
    !n.linked
  }

  /** `==` on lineages and on tree nodes: the elements are equal. */
  predicate Same<E(==)>(a: Node<E>, b: Node<E>) {
    a.element == b.element
  }

  // ----- Paths -----

  ghost predicate ValidPath<E>(t: Node<E>, p: Path)
    decreases p
  {
    p == [] || (p[0] < |t.children| && ValidPath(t.children[p[0]], p[1..]))
  }

  function At<E>(t: Node<E>, p: Path): Node<E>
    requires ValidPath(t, p)
    decreases p
  {
    if p == [] then t else At(t.children[p[0]], p[1..])
  }

  /** `t` with the node at `p` replaced by `s`. */
  function Put<E>(t: Node<E>, p: Path, s: Node<E>): Node<E>
    requires ValidPath(t, p)
    decreases p
  {
    if p == [] then s else t.(children := t.children[p[0] := Put(t.children[p[0]], p[1..], s)])
  }

  function Init(p: Path): Path
    requires p != []
  {
    p[..|p| - 1]
  }

  function Last(p: Path): nat
    requires p != []
  {
    p[|p| - 1]
  }

  /** The node a position's `parent` link names: the one at the position above. */
  function Above<E>(t: Node<E>, p: Path): (r: Node<E>)
    requires ValidPath(t, p) && p != []
    ensures ValidPath(t, Init(p)) && r == At(t, Init(p))
    ensures Last(p) < |r.children| && r.children[Last(p)] == At(t, p)
  {
    InitValid(t, p);
    At(t, Init(p))
  }

  // ----- Contents -----

  ghost function Elements<E>(t: Node<E>): multiset<E>
    decreases t
  {
    multiset{t.element} + ElementsOf(t.children)
  }

  ghost function ElementsOf<E>(cs: seq<Node<E>>): multiset<E>
    decreases cs
  {
    if cs == [] then multiset{} else Elements(cs[0]) + ElementsOf(cs[1..])
  }

  /** `leaves`: a leaf's own element, otherwise its children's leaves one after the other. */
  function Leaves<E>(t: Node<E>): seq<E>
    decreases t
  {
    if IsLeaf(t) then [t.element] else LeavesOf(t.children)
  }

  function LeavesOf<E>(cs: seq<Node<E>>): seq<E>
    decreases cs
  {
    if cs == [] then [] else Leaves(cs[0]) + LeavesOf(cs[1..])
  }

  // ----- Links -----

  /** Every node below the top has its `parent` link. */
  ghost predicate Consistent<E>(t: Node<E>)
    decreases t
  {
    forall i :: 0 <= i < |t.children| ==> t.children[i].linked && Consistent(t.children[i])
  }

  /** The elements met by following `parent` links from the node at `p`. */
  ghost function Chain<E>(t: Node<E>, p: Path): seq<E>
    requires ValidPath(t, p)
    decreases |p|
  {
    if At(t, p).linked && p != [] then
      InitValid(t, p);
      [At(t, p).element] + Chain(t, Init(p))
    else [At(t, p).element]
  }

  // ----- Search -----

  /** `node(element)`, `findNode(key)`: the node itself, else the first child subtree that has one. */
  function Find<E(==)>(t: Node<E>, e: E): (r: Option<Path>)
    ensures r.Some? ==> ValidPath(t, r.value) && At(t, r.value).element == e
    decreases t
  {
    if t.element == e then Some([]) else FindFrom(t, e, 0)
  }

  /** `for c in children`, from the `i`th child on. */
  function FindFrom<E(==)>(t: Node<E>, e: E, i: nat): (r: Option<Path>)
    requires i <= |t.children|
    ensures r.Some? ==> ValidPath(t, r.value) && r.value != [] && At(t, r.value).element == e
    decreases t, |t.children| - i
  {
    if i == |t.children| then None
    else match Find(t.children[i], e)
      case Some(p) =>
        assert ([i] + p)[1..] == p;
        Some([i] + p)
      case None => FindFrom(t, e, i + 1)
  }

  // ----- Lemmas: paths -----

  lemma {:induction false} PutAt<E>(t: Node<E>, p: Path, s: Node<E>)
    requires ValidPath(t, p)
    ensures ValidPath(Put(t, p, s), p) && At(Put(t, p, s), p) == s
    decreases p
  {
    if p != [] {
      PutAt(t.children[p[0]], p[1..], s);
    }
  }

  lemma {:induction false} PutTwice<E>(t: Node<E>, p: Path, s: Node<E>, u: Node<E>)
    requires ValidPath(t, p)
    ensures ValidPath(Put(t, p, s), p) && Put(Put(t, p, s), p, u) == Put(t, p, u)
    decreases p
  {
    PutAt(t, p, s);
    if p != [] {
      PutTwice(t.children[p[0]], p[1..], s, u);
    }
  }

  lemma {:induction false} PutSame<E>(t: Node<E>, p: Path)
    requires ValidPath(t, p)
    ensures Put(t, p, At(t, p)) == t
    decreases p
  {
    if p != [] {
      PutSame(t.children[p[0]], p[1..]);
    }
  }

  /** The position above a non-empty path is valid, and the node there is a child of the node above. */
  lemma {:induction false} InitValid<E>(t: Node<E>, p: Path)
    requires ValidPath(t, p) && p != []
    ensures ValidPath(t, Init(p)) && Last(p) < |At(t, Init(p)).children|
    ensures At(t, p) == At(t, Init(p)).children[Last(p)]
    decreases p
  {
    if |p| > 1 {
      assert Init(p)[0] == p[0] && Init(p)[1..] == Init(p[1..]);
      InitValid(t.children[p[0]], p[1..]);
    }
  }

  /** One step further down a valid path. */
  lemma {:induction false} StepValid<E>(t: Node<E>, p: Path, k: nat)
    requires ValidPath(t, p) && k < |At(t, p).children|
    ensures ValidPath(t, p + [k]) && At(t, p + [k]) == At(t, p).children[k]
    decreases p
  {
    if p == [] {
      assert ([] + [k])[1..] == [];
    } else {
      assert (p + [k])[0] == p[0] && (p + [k])[1..] == p[1..] + [k];
      StepValid(t.children[p[0]], p[1..], k);
    }
  }

  /** Putting a node with the same element and link keeps the top's. */
  lemma PutTop<E>(t: Node<E>, p: Path, s: Node<E>)
    requires ValidPath(t, p) && s.element == At(t, p).element && s.linked == At(t, p).linked
    ensures Put(t, p, s).element == t.element && Put(t, p, s).linked == t.linked
  {
  }

  // ----- Lemmas: contents -----

  /** A child's elements are some of its parent's. */
  lemma {:induction false} ElementsOfChild<E>(cs: seq<Node<E>>, i: nat)
    requires i < |cs|
    ensures Elements(cs[i]) <= ElementsOf(cs)
    decreases cs
  {
    if i > 0 {
      ElementsOfChild(cs[1..], i - 1);
      assert cs[1..][i - 1] == cs[i];
    }
  }

  /** An element of the children is in one of them. */
  lemma {:induction false} ElementsOfSome<E>(cs: seq<Node<E>>, e: E) returns (i: nat)
    requires e in ElementsOf(cs)
    ensures i < |cs| && e in Elements(cs[i])
    decreases cs
  {
    if e in Elements(cs[0]) {
      i := 0;
    } else {
      var j := ElementsOfSome(cs[1..], e);
      i := j + 1;
    }
  }

  lemma {:induction false} ElementsOfAppend<E>(cs: seq<Node<E>>, ds: seq<Node<E>>)
    ensures ElementsOf(cs + ds) == ElementsOf(cs) + ElementsOf(ds)
    decreases cs
  {
    if cs == [] {
      assert cs + ds == ds;
    } else {
      assert (cs + ds)[0] == cs[0] && (cs + ds)[1..] == cs[1..] + ds;
      ElementsOfAppend(cs[1..], ds);
    }
  }

  lemma ElementsOfSplit<E>(cs: seq<Node<E>>, i: nat)
    requires i < |cs|
    ensures ElementsOf(cs) == ElementsOf(cs[..i]) + (Elements(cs[i]) + ElementsOf(cs[i + 1..]))
  {
    var front, back := cs[..i], cs[i..];
    assert cs == front + back;
    ElementsOfAppend(front, back);
    assert ElementsOf(back) == Elements(cs[i]) + ElementsOf(cs[i + 1..]) by {
      assert back[0] == cs[i] && back[1..] == cs[i + 1..];
    }
  }

  lemma ElementsOfUpdate<E>(cs: seq<Node<E>>, i: nat, x: Node<E>)
    requires i < |cs|
    ensures ElementsOf(cs[i := x]) + Elements(cs[i]) == ElementsOf(cs) + Elements(x)
  {
    ElementsOfSplit(cs, i);
    ElementsOfSplit(cs[i := x], i);
    assert cs[i := x][..i] == cs[..i] && cs[i := x][i + 1..] == cs[i + 1..];
  }

  /** Replacing the node at `p` trades its elements for those of the new node. */
  lemma {:induction false} ElementsPut<E>(t: Node<E>, p: Path, s: Node<E>)
    requires ValidPath(t, p)
    ensures Elements(Put(t, p, s)) + Elements(At(t, p)) == Elements(t) + Elements(s)
    decreases p
  {
    if p != [] {
      var c := t.children[p[0]];
      var c' := Put(c, p[1..], s);
      ElementsPut(c, p[1..], s);
      ElementsOfUpdate(t.children, p[0], c');
      assert Elements(Put(t, p, s)) == multiset{t.element} + ElementsOf(t.children[p[0] := c']);
      assert At(t, p) == At(c, p[1..]);
      Cancel(multiset{t.element}, ElementsOf(t.children[p[0] := c']), Elements(At(c, p[1..])),
             ElementsOf(t.children), Elements(s), Elements(c), Elements(c'));
    }
  }

  /** Multiset arithmetic for `ElementsPut`: `c` and `d` cancel. */
  lemma Cancel<T>(e: multiset<T>, x: multiset<T>, y: multiset<T>, a: multiset<T>, b: multiset<T>,
                  c: multiset<T>, d: multiset<T>)
    requires x + c == a + d && d + y == c + b
    ensures e + x + y == e + a + b
  {
    forall z ensures (e + x + y)[z] == (e + a + b)[z] {
      assert (x + c)[z] == (a + d)[z];
      assert (d + y)[z] == (c + b)[z];
    }
  }

  /** The node at a position and its elements are in the tree. */
  lemma {:induction false} ElementsAt<E>(t: Node<E>, p: Path)
    requires ValidPath(t, p)
    ensures Elements(At(t, p)) <= Elements(t)
    decreases p
  {
    if p != [] {
      ElementsAt(t.children[p[0]], p[1..]);
      ElementsOfChild(t.children, p[0]);
    }
  }

  lemma ElementsGrow<E>(t: Node<E>, p: Path, s: Node<E>, m: multiset<E>)
    requires ValidPath(t, p) && Elements(s) == Elements(At(t, p)) + m
    ensures Elements(Put(t, p, s)) == Elements(t) + m
  {
    ElementsPut(t, p, s);
    Rebalance(Elements(Put(t, p, s)), Elements(At(t, p)), Elements(t), Elements(s), m);
  }

  lemma ElementsShrink<E>(t: Node<E>, p: Path, s: Node<E>, m: multiset<E>)
    requires ValidPath(t, p) && Elements(At(t, p)) == Elements(s) + m
    ensures Elements(t) == Elements(Put(t, p, s)) + m
  {
    ElementsPut(t, p, s);
    Rebalance(Elements(t), Elements(s), Elements(Put(t, p, s)), Elements(At(t, p)), m);
  }

  /** Multiset arithmetic for the two above: `b` cancels. */
  lemma Rebalance<T>(a: multiset<T>, b: multiset<T>, c: multiset<T>, s: multiset<T>, m: multiset<T>)
    requires a + b == c + s && s == b + m
    ensures a == c + m
  {
    forall z ensures a[z] == (c + m)[z] {
      assert (a + b)[z] == (c + s)[z];
    }
  }

  // ----- Lemmas: search -----

  /** `contains`: the search finds a node exactly when some node holds the element. */
  lemma {:induction false} FindIffIn<E>(t: Node<E>, e: E)
    ensures Find(t, e).Some? <==> e in Elements(t)
    decreases t
  {
    if t.element != e {
      FindFromIffIn(t, e, 0);
      assert t.children[0..] == t.children;
    }
  }

  lemma {:induction false} FindFromIffIn<E>(t: Node<E>, e: E, i: nat)
    requires i <= |t.children|
    ensures FindFrom(t, e, i).Some? <==> e in ElementsOf(t.children[i..])
    decreases t, |t.children| - i
  {
    if i < |t.children| {
      FindIffIn(t.children[i], e);
      FindFromIffIn(t, e, i + 1);
      assert t.children[i..][0] == t.children[i] && t.children[i..][1..] == t.children[i + 1..];
    }
  }

  /** A found path leads to a node holding the element. */
  lemma FoundHolds<E>(t: Node<E>, e: E)
    requires Find(t, e).Some?
    ensures e in Elements(t) && At(t, Find(t, e).value).element == e
  {
    FindIffIn(t, e);
  }

  // ----- Lemmas: links -----

  lemma {:induction false} ConsistentAt<E>(t: Node<E>, p: Path)
    requires ValidPath(t, p) && Consistent(t)
    ensures Consistent(At(t, p)) && (p != [] ==> At(t, p).linked)
    decreases p
  {
    if p != [] {
      ConsistentAt(t.children[p[0]], p[1..]);
    }
  }

  /** Putting a node with the same link keeps every `parent` link in place. */
  lemma {:induction false} PutConsistent<E>(t: Node<E>, p: Path, s: Node<E>)
    requires ValidPath(t, p) && Consistent(t) && Consistent(s) && s.linked == At(t, p).linked
    ensures Consistent(Put(t, p, s))
    decreases p
  {
    if p != [] {
      var c := t.children[p[0]];
      PutConsistent(c, p[1..], s);
      assert Put(c, p[1..], s).linked == c.linked;
    }
  }

  /** Entry `i` of the chain is the node `i` positions above. */
  lemma {:induction false} ChainEntry<E>(t: Node<E>, p: Path, i: nat)
    requires ValidPath(t, p) && i < |Chain(t, p)|
    ensures i <= |p| && ValidPath(t, p[..|p| - i]) && Chain(t, p)[i] == At(t, p[..|p| - i]).element
    decreases |p|
  {
    if i == 0 {
      assert p[..|p| - i] == p;
    } else {
      InitValid(t, p);
      ChainEntry(t, Init(p), i - 1);
      assert Init(p)[..|Init(p)| - (i - 1)] == p[..|p| - i];
    }
  }

  /** The chain stops only at a node with no link to follow: the top or one whose link is nil. */
  lemma {:induction false} ChainEnd<E>(t: Node<E>, p: Path)
    requires ValidPath(t, p)
    ensures 1 <= |Chain(t, p)| <= |p| + 1
    ensures var j := |Chain(t, p)| - 1;
      ValidPath(t, p[..|p| - j]) && !(At(t, p[..|p| - j]).linked && j < |p|)
    decreases |p|
  {
    assert p[..|p|] == p;
    if At(t, p).linked && p != [] {
      InitValid(t, p);
      ChainEnd(t, Init(p));
      var c, d := Chain(t, p), Chain(t, Init(p));
      assert c == [At(t, p).element] + d;
      assert Init(p)[..|Init(p)| - (|d| - 1)] == p[..|p| - (|c| - 1)];
    }
  }

  /** When every link is in place, the chain climbs all the way to the top. */
  lemma {:induction false} ChainToOrigin<E>(t: Node<E>, p: Path)
    requires ValidPath(t, p) && Consistent(t)
    ensures |Chain(t, p)| == |p| + 1 && Chain(t, p)[|p|] == t.element
    decreases |p|
  {
    if p != [] {
      ConsistentAt(t, p);
      InitValid(t, p);
      ChainToOrigin(t, Init(p));
    }
  }

  // ----- Lemmas: leaves -----

  lemma {:induction false} LeavesOfHas<E>(cs: seq<Node<E>>, i: nat, x: E)
    requires i < |cs| && x in Leaves(cs[i])
    ensures x in LeavesOf(cs)
    decreases cs
  {
    if i > 0 {
      assert cs[1..][i - 1] == cs[i];
      LeavesOfHas(cs[1..], i - 1, x);
    }
  }

  lemma {:induction false} LeavesOfSome<E>(cs: seq<Node<E>>, x: E) returns (i: nat)
    requires x in LeavesOf(cs)
    ensures i < |cs| && x in Leaves(cs[i])
    decreases cs
  {
    if x in Leaves(cs[0]) {
      i := 0;
    } else {
      var j := LeavesOfSome(cs[1..], x);
      i := j + 1;
    }
  }

  /** Every leaf's element is among `leaves`. */
  lemma {:induction false} LeafInLeaves<E>(t: Node<E>, p: Path)
    requires ValidPath(t, p) && IsLeaf(At(t, p))
    ensures At(t, p).element in Leaves(t)
    decreases p
  {
    if p != [] {
      LeafInLeaves(t.children[p[0]], p[1..]);
      LeavesOfHas(t.children, p[0], At(t, p).element);
    }
  }

  /** Only leaves' elements are among `leaves`. */
  lemma {:induction false} LeavesAreLeaves<E>(t: Node<E>, x: E) returns (p: Path)
    requires x in Leaves(t)
    ensures ValidPath(t, p) && IsLeaf(At(t, p)) && At(t, p).element == x
    decreases t
  {
    if IsLeaf(t) {
      p := [];
    } else {
      var i := LeavesOfSome(t.children, x);
      var q := LeavesAreLeaves(t.children[i], x);
      p := [i] + q;
      assert p[0] == i && p[1..] == q;
    }
  }
}

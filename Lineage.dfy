/**
 * Lineage.swift: a rooted tree of `Lineage` objects. Two lineages are equal when their
 * elements are, and a node's children are a `Set`, so they hold at most one child per element.
 * The children are kept here in the order they were added.
 */
module Lineage {
  import opened Wrappers
  import opened RootedTree

  // ----- Children as a set keyed by element -----

  /** No two children are `==`. */
  ghost predicate Keyed<E>(cs: seq<Node<E>>) {
    forall i, j :: 0 <= i < j < |cs| ==> cs[i].element != cs[j].element
  }

  /** Some child is `==` to `x`. */
  predicate Member<E(==)>(cs: seq<Node<E>>, x: Node<E>) {
    exists i :: 0 <= i < |cs| && Same(cs[i], x)
  }

  /** `Set.insert`: nothing when a `==` child is there. */
  function Insert<E(==)>(cs: seq<Node<E>>, x: Node<E>): seq<Node<E>> {
    if Member(cs, x) then cs else cs + [x]
  }

  /** `Set.remove`: drops the child `==` to `x`. */
  function Remove<E(==)>(cs: seq<Node<E>>, x: Node<E>): seq<Node<E>>
    decreases cs
  {
    if cs == [] then [] else (if Same(cs[0], x) then [] else [cs[0]]) + Remove(cs[1..], x)
  }

  /** `Set.unionInPlace`: inserts each of `more` in turn, keeping the children already there. */
  function Union<E(==)>(cs: seq<Node<E>>, more: seq<Node<E>>): seq<Node<E>>
    decreases more
  {
    if more == [] then cs else Union(Insert(cs, more[0]), more[1..])
  }

  /** Sets every `parent` link of `cs`: to the node above when `linked`, to nil otherwise. */
  function Reparent<E>(cs: seq<Node<E>>, linked: bool): (r: seq<Node<E>>)
    ensures |r| == |cs|
    ensures forall i :: 0 <= i < |r| ==> r[i] == cs[i].(linked := linked)
  {
    seq(|cs|, i requires 0 <= i < |cs| => cs[i].(linked := linked))
  }

  /** Every node's children are keyed by element. */
  ghost predicate WellFormed<E>(t: Node<E>)
    decreases t
  {
    Keyed(t.children) && forall i :: 0 <= i < |t.children| ==> WellFormed(t.children[i])
  }

  /** A lineage as the origin sees it: the origin has no parent and every child set is keyed. */
  ghost predicate WellRooted<E>(t: Node<E>) {
    !t.linked && WellFormed(t)
  }

  // ----- Lemmas: child sets -----

  /** `Set.remove` keeps exactly the children not `==` to `x`. */
  lemma {:induction false} RemoveHas<E>(cs: seq<Node<E>>, x: Node<E>, y: Node<E>)
    ensures y in Remove(cs, x) <==> y in cs && y.element != x.element
    decreases cs
  {
    if cs != [] {
      RemoveHas(cs[1..], x, y);
      assert cs == [cs[0]] + cs[1..];
    }
  }

  lemma {:induction false} RemoveKeyed<E>(cs: seq<Node<E>>, x: Node<E>)
    requires Keyed(cs)
    ensures Keyed(Remove(cs, x))
    decreases cs
  {
    if cs != [] {
      assert Keyed(cs[1..]);
      RemoveKeyed(cs[1..], x);
      var rest := Remove(cs[1..], x);
      if !Same(cs[0], x) {
        var r := Remove(cs, x);
        assert r == [cs[0]] + rest;
        forall i, j | 0 <= i < j < |r| ensures r[i].element != r[j].element {
          assert r[j] == rest[j - 1] && rest[j - 1] in rest;
          if i == 0 {
            RemoveHas(cs[1..], x, r[j]);
            var k :| 0 <= k < |cs[1..]| && cs[1..][k] == r[j];
            assert cs[k + 1] == r[j];
          } else {
            assert r[i] == rest[i - 1];
          }
        }
      }
    }
  }

  /** Without a `==` child, removing changes nothing. */
  lemma {:induction false} RemoveAbsent<E>(cs: seq<Node<E>>, x: Node<E>)
    requires !Member(cs, x)
    ensures Remove(cs, x) == cs
    decreases cs
  {
    if cs != [] {
      assert !Same(cs[0], x);
      forall k | 0 <= k < |cs[1..]| ensures !Same(cs[1..][k], x) {
        assert cs[1..][k] == cs[k + 1];
      }
      RemoveAbsent(cs[1..], x);
      assert cs == [cs[0]] + cs[1..];
    }
  }

  /** No child of `cs` is `==` to a child of `more`. */
  ghost predicate Disjoint<E>(cs: seq<Node<E>>, more: seq<Node<E>>) {
    forall i, j :: 0 <= i < |cs| && 0 <= j < |more| ==> cs[i].element != more[j].element
  }

  lemma InsertHas<E>(cs: seq<Node<E>>, x: Node<E>, y: Node<E>)
    ensures y in Insert(cs, x) ==> y in cs || y == x
    ensures Member(Insert(cs, x), x)
  {
    if !Member(cs, x) {
      assert Insert(cs, x)[|cs|] == x;
    }
  }

  lemma InsertKeyed<E>(cs: seq<Node<E>>, x: Node<E>)
    requires Keyed(cs)
    ensures Keyed(Insert(cs, x))
  {
    if !Member(cs, x) {
      var r := cs + [x];
      forall i, j | 0 <= i < j < |r| ensures r[i].element != r[j].element {
        if j == |cs| {
          assert !Same(cs[i], x);
        }
      }
    }
  }

  /** Inserting keeps the children already there, in front. */
  lemma InsertPrefix<E>(cs: seq<Node<E>>, x: Node<E>)
    ensures |cs| <= |Insert(cs, x)| && Insert(cs, x)[..|cs|] == cs
  {
  }

  lemma {:induction false} UnionHas<E>(cs: seq<Node<E>>, more: seq<Node<E>>, y: Node<E>)
    ensures y in Union(cs, more) ==> y in cs || y in more
    decreases more
  {
    if more != [] {
      UnionHas(Insert(cs, more[0]), more[1..], y);
      InsertHas(cs, more[0], y);
    }
  }

  lemma {:induction false} UnionKeyed<E>(cs: seq<Node<E>>, more: seq<Node<E>>)
    requires Keyed(cs)
    ensures Keyed(Union(cs, more))
    decreases more
  {
    if more != [] {
      InsertKeyed(cs, more[0]);
      UnionKeyed(Insert(cs, more[0]), more[1..]);
    }
  }

  lemma {:induction false} UnionPrefix<E>(cs: seq<Node<E>>, more: seq<Node<E>>)
    ensures |cs| <= |Union(cs, more)| && Union(cs, more)[..|cs|] == cs
    decreases more
  {
    if more != [] {
      var c := Insert(cs, more[0]);
      InsertPrefix(cs, more[0]);
      UnionPrefix(c, more[1..]);
      assert Union(cs, more)[..|cs|] == Union(c, more[1..])[..|c|][..|cs|];
    }
  }

  /** Whoever is already a child stays one. */
  lemma {:induction false} UnionKeepsMember<E>(cs: seq<Node<E>>, more: seq<Node<E>>, x: Node<E>)
    requires Member(cs, x)
    ensures Member(Union(cs, more), x)
    decreases more
  {
    if more != [] {
      var k :| 0 <= k < |cs| && Same(cs[k], x);
      InsertPrefix(cs, more[0]);
      assert Insert(cs, more[0])[k] == cs[k];
      UnionKeepsMember(Insert(cs, more[0]), more[1..], x);
    }
  }

  /** After the union every one of `more` has a `==` child: itself or one that was there before. */
  lemma {:induction false} UnionCovers<E>(cs: seq<Node<E>>, more: seq<Node<E>>, j: nat)
    requires j < |more|
    ensures Member(Union(cs, more), more[j])
    decreases more
  {
    InsertHas(cs, more[0], more[0]);
    if j == 0 {
      UnionKeepsMember(Insert(cs, more[0]), more[1..], more[0]);
    } else {
      UnionCovers(Insert(cs, more[0]), more[1..], j - 1);
    }
  }

  /** With no collisions the union appends `more` whole. */
  lemma {:induction false} UnionFresh<E>(cs: seq<Node<E>>, more: seq<Node<E>>)
    requires Keyed(more) && Disjoint(cs, more)
    ensures Union(cs, more) == cs + more
    decreases more
  {
    if more != [] {
      assert !Member(cs, more[0]) by {
        forall i | 0 <= i < |cs| ensures !Same(cs[i], more[0]) {
        }
      }
      var c := cs + [more[0]];
      assert Keyed(more[1..]) && Disjoint(c, more[1..]) by {
        forall i, j | 0 <= i < |c| && 0 <= j < |more[1..]| ensures c[i].element != more[1..][j].element {
          assert more[1..][j] == more[j + 1];
        }
      }
      UnionFresh(c, more[1..]);
      assert c + more[1..] == cs + more;
    }
  }

  lemma {:induction false} ReparentElements<E>(cs: seq<Node<E>>, linked: bool)
    ensures ElementsOf(Reparent(cs, linked)) == ElementsOf(cs)
    decreases cs
  {
    if cs != [] {
      assert Reparent(cs, linked)[1..] == Reparent(cs[1..], linked);
      ReparentElements(cs[1..], linked);
    }
  }

  lemma InsertElements<E>(cs: seq<Node<E>>, x: Node<E>)
    requires !Member(cs, x)
    ensures ElementsOf(Insert(cs, x)) == ElementsOf(cs) + Elements(x)
  {
    ElementsOfAppend(cs, [x]);
    assert [x][1..] == [];
  }

  /** Removing the child `==` to `x` takes away exactly that child's elements. */
  lemma {:induction false} RemoveElements<E>(cs: seq<Node<E>>, i: nat, x: Node<E>)
    requires Keyed(cs) && i < |cs| && cs[i].element == x.element
    ensures ElementsOf(cs) == ElementsOf(Remove(cs, x)) + Elements(cs[i])
    decreases cs
  {
    assert Keyed(cs[1..]);
    if i == 0 {
      forall k | 0 <= k < |cs[1..]| ensures !Same(cs[1..][k], x) {
        assert cs[1..][k] == cs[k + 1];
      }
      RemoveAbsent(cs[1..], x);
      assert Remove(cs, x) == cs[1..];
      assert ElementsOf(cs) == Elements(cs[0]) + ElementsOf(cs[1..]);
    } else {
      assert !Same(cs[0], x);
      assert cs[1..][i - 1] == cs[i];
      RemoveElements(cs[1..], i - 1, x);
    }
  }

  // ----- Lemmas: replacing a node -----

  lemma {:induction false} WellFormedAt<E>(t: Node<E>, p: Path)
    requires ValidPath(t, p) && WellFormed(t)
    ensures WellFormed(At(t, p))
    decreases p
  {
    if p != [] {
      WellFormedAt(t.children[p[0]], p[1..]);
    }
  }

  /** Putting a node with the same element keeps every child set keyed. */
  lemma {:induction false} PutWellFormed<E>(t: Node<E>, p: Path, s: Node<E>)
    requires ValidPath(t, p) && WellFormed(t) && WellFormed(s) && s.element == At(t, p).element
    ensures WellFormed(Put(t, p, s))
    decreases p
  {
    if p != [] {
      var c := t.children[p[0]];
      var c' := Put(c, p[1..], s);
      PutWellFormed(c, p[1..], s);
      assert c'.element == c.element;
      var cs := t.children[p[0] := c'];
      forall i, j | 0 <= i < j < |cs| ensures cs[i].element != cs[j].element {
        assert cs[i].element == t.children[i].element && cs[j].element == t.children[j].element;
      }
      assert forall i :: 0 <= i < |cs| ==> WellFormed(cs[i]);
    }
  }

  // ----- The operations on values -----

  /** `link(parent:child:)`: a new linked leaf inserted into the children of `parent`'s node. */
  ghost function AfterLink<E>(t: Node<E>, parent: E, child: E): Node<E> {
    match Find(t, parent)
    case None => t
    case Some(p) =>
      var n := At(t, p);
      Put(t, p, n.(children := Insert(n.children, Node(child, true, []))))
  }

  /** `unlink` of the linked node at `p`: removed from its parent's children, which with
      `repair` then take in its children, re-linked to the parent. */
  ghost function Cut<E>(t: Node<E>, p: Path, repair: bool): Node<E>
    requires ValidPath(t, p) && p != []
  {
    var par := Above(t, p);
    var rest := Remove(par.children, At(t, p));
    Put(t, Init(p), par.(children := if repair then Union(rest, Reparent(At(t, p).children, true)) else rest))
  }

  /** `unlink(element:repair:)`. A node whose `parent` link is nil stays where it is: without
      `repair` it loses its children, with `repair` its children keep their place with nil links. */
  ghost function AfterUnlink<E>(t: Node<E>, e: E, repair: bool): Node<E> {
    match Find(t, e)
    case None => t
    case Some(p) =>
      var n := At(t, p);
      if n.linked && p != [] then Cut(t, p, repair)
      else Put(t, p, n.(children := if repair then Reparent(n.children, false) else []))
  }

  /** `prune(element:)`: only a leaf is taken, and only from a parent its link names. */
  ghost function AfterPrune<E>(t: Node<E>, e: E): Node<E> {
    match Find(t, e)
    case None => t
    case Some(p) => if IsLeaf(At(t, p)) && At(t, p).linked && p != [] then Cut(t, p, false) else t
  }

  /** `rootPath(element:)` */
  ghost function RootPathOf<E>(t: Node<E>, e: E): seq<E> {
    match Find(t, e)
    case None => []
    case Some(p) => Chain(t, p)
  }

  // ----- The lineage object -----

  class Lineage<E(==)> {
    var root: Node<E>

    ghost predicate Valid()
      reads this
    {
      WellRooted(root)
    }

    /** `init(element:)`: an origin with no children. */
    constructor(element: E)
      ensures Valid() && Consistent(root) && root == Node(element, false, [])
    {
      root := Node(element, false, []);
    }

    /** `contains(element:)` */
    function Contains(e: E): (b: bool)
      reads this
      ensures b <==> e in Elements(root)
    {
      FindIffIn(root, e);
      Find(root, e).Some?
    }

    method Link(parent: E, child: E)
      modifies this
      requires Valid()
      ensures Valid() && root == AfterLink(old(root), parent, child)
      ensures Consistent(old(root)) ==> Consistent(root)
    {
      LinkKeeps(root, parent, child);
      match Find(root, parent) {
        case None =>
        case Some(p) =>
          var node := At(root, p);
          root := Put(root, p, node.(children := Insert(node.children, Node(child, true, []))));
      }
    }

    method Unlink(e: E, repair: bool) returns (r: Option<E>)
      modifies this
      requires Valid()
      ensures Valid() && root == AfterUnlink(old(root), e, repair)
      ensures r == if e in Elements(old(root)) then Some(e) else None
      ensures Consistent(old(root)) && (!repair || old(root).element != e) ==> Consistent(root)
    {
      FindIffIn(root, e);
      UnlinkKeeps(root, e, repair);
      var found := Find(root, e);
      if found.None? {
        return None;
      }
      var p := found.value;
      var node := At(root, p);
      if node.linked && p != [] {
        var parent := Above(root, p);
        parent := parent.(children := Remove(parent.children, node));
        if repair {
          parent := parent.(children := Union(parent.children, Reparent(node.children, true)));
        }
        root := Put(root, Init(p), parent);
      } else if repair {
        root := Put(root, p, node.(children := Reparent(node.children, false)));
      } else {
        root := Put(root, p, node.(children := []));
      }
      r := Some(node.element);
    }

    method Prune(e: E) returns (r: Option<E>)
      modifies this
      requires Valid()
      ensures Valid() && root == AfterPrune(old(root), e)
      ensures r.Some? <==> (match Find(old(root), e) case None => false case Some(p) => IsLeaf(At(old(root), p)))
      ensures r.Some? ==> r.value == e
      ensures r.None? ==> root == old(root)
      ensures Consistent(old(root)) ==> Consistent(root)
    {
      PruneKeeps(root, e);
      var found := Find(root, e);
      if found.None? {
        return None;
      }
      var p := found.value;
      var node := At(root, p);
      if !IsLeaf(node) {
        return None;
      }
      if node.linked && p != [] {
        var parent := Above(root, p);
        root := Put(root, Init(p), parent.(children := Remove(parent.children, node)));
      }
      r := Some(node.element);
    }

    method RootPath(e: E) returns (path: seq<E>)
      ensures path == RootPathOf(root, e)
    {
      var found := Find(root, e);
      if found.None? {
        return [];
      }
      var p := found.value;
      var node := At(root, p);
      if IsOrigin(node) {
        return [node.element];
      }
      path := [node.element];
      var at := p;
      while At(root, at).linked && at != []
        invariant ValidPath(root, at)
        invariant path + Chain(root, at)[1..] == Chain(root, p)
        decreases |at|
      {
        var parent := Above(root, at);
        at := Init(at);
        path := path + [parent.element];
      }
    }
  }

  // ----- Lemmas: link -----

  /** With `parent` absent, `link` changes nothing. */
  lemma LinkAbsent<E>(t: Node<E>, parent: E, child: E)
    requires parent !in Elements(t)
    ensures AfterLink(t, parent, child) == t
  {
    FindIffIn(t, parent);
  }

  /** A child `==` to one already there is not added. */
  lemma LinkDuplicate<E>(t: Node<E>, parent: E, child: E, p: Path)
    requires Find(t, parent) == Some(p) && Member(At(t, p).children, Node(child, true, []))
    ensures AfterLink(t, parent, child) == t
  {
    PutSame(t, p);
  }

  /** Otherwise the new node is the last child of `parent`'s node, linked to it. */
  lemma LinkAdds<E>(t: Node<E>, parent: E, child: E, p: Path)
    requires Find(t, parent) == Some(p) && !Member(At(t, p).children, Node(child, true, []))
    ensures var u, k := AfterLink(t, parent, child), |At(t, p).children|;
      ValidPath(u, p) && ValidPath(u, p + [k]) && At(u, p + [k]) == Node(child, true, []) && At(u, p).element == parent
    ensures Elements(AfterLink(t, parent, child)) == Elements(t) + multiset{child}
  {
    var n, x := At(t, p), Node(child, true, []);
    var n' := n.(children := Insert(n.children, x));
    InsertElements(n.children, x);
    assert Elements(x) == multiset{child};
    assert Elements(n') == Elements(n) + multiset{child};
    ElementsGrow(t, p, n', multiset{child});
    PutAt(t, p, n');
    assert n'.children[|n.children|] == x;
    StepValid(Put(t, p, n'), p, |n.children|);
  }

  lemma LinkKeeps<E>(t: Node<E>, parent: E, child: E)
    ensures WellRooted(t) ==> WellRooted(AfterLink(t, parent, child))
    ensures Consistent(t) ==> Consistent(AfterLink(t, parent, child))
  {
    match Find(t, parent) {
      case None =>
      case Some(p) =>
        var n, x := At(t, p), Node(child, true, []);
        var n' := n.(children := Insert(n.children, x));
        forall y | y in n'.children ensures y in n.children || y == x {
          InsertHas(n.children, x, y);
        }
        PutTop(t, p, n');
        if WellRooted(t) {
          WellFormedAt(t, p);
          InsertKeyed(n.children, x);
          PutWellFormed(t, p, n');
        }
        if Consistent(t) {
          ConsistentAt(t, p);
          PutConsistent(t, p, n');
        }
    }
  }

  // ----- Lemmas: unlink and prune -----

  /** The children the parent ends with in `Cut`: some of its own, or some of the node's, re-linked. */
  lemma CutChildren<E>(t: Node<E>, p: Path, repair: bool, y: Node<E>)
    requires ValidPath(t, p) && p != []
    requires var rest := Remove(Above(t, p).children, At(t, p));
      y in (if repair then Union(rest, Reparent(At(t, p).children, true)) else rest)
    ensures y in Above(t, p).children || exists i :: 0 <= i < |At(t, p).children| && y == At(t, p).children[i].(linked := true)
  {
    var par, n := Above(t, p), At(t, p);
    var rest := Remove(par.children, n);
    RemoveHas(par.children, n, y);
    if repair {
      UnionHas(rest, Reparent(n.children, true), y);
    }
  }

  lemma CutKeeps<E>(t: Node<E>, p: Path, repair: bool)
    requires ValidPath(t, p) && p != []
    ensures WellRooted(t) ==> WellRooted(Cut(t, p, repair))
    ensures Consistent(t) ==> Consistent(Cut(t, p, repair))
  {
    var par, n := Above(t, p), At(t, p);
    var rest := Remove(par.children, n);
    var kids := if repair then Union(rest, Reparent(n.children, true)) else rest;
    var par' := par.(children := kids);
    PutTop(t, Init(p), par');
    if WellRooted(t) {
      WellFormedAt(t, Init(p));
      WellFormedAt(t, p);
      RemoveKeyed(par.children, n);
      if repair {
        UnionKeyed(rest, Reparent(n.children, true));
      }
      forall i | 0 <= i < |kids| ensures WellFormed(kids[i]) {
        CutChildren(t, p, repair, kids[i]);
      }
      PutWellFormed(t, Init(p), par');
    }
    if Consistent(t) {
      ConsistentAt(t, Init(p));
      ConsistentAt(t, p);
      forall i | 0 <= i < |kids| ensures kids[i].linked && Consistent(kids[i]) {
        CutChildren(t, p, repair, kids[i]);
      }
      PutConsistent(t, Init(p), par');
    }
  }

  lemma UnlinkKeeps<E>(t: Node<E>, e: E, repair: bool)
    ensures WellRooted(t) ==> WellRooted(AfterUnlink(t, e, repair))
    ensures Consistent(t) && (!repair || t.element != e) ==> Consistent(AfterUnlink(t, e, repair))
  {
    match Find(t, e) {
      case None =>
      case Some(p) =>
        var n := At(t, p);
        if n.linked && p != [] {
          CutKeeps(t, p, repair);
        } else {
          var n' := n.(children := if repair then Reparent(n.children, false) else []);
          PutTop(t, p, n');
          if WellRooted(t) {
            WellFormedAt(t, p);
            PutWellFormed(t, p, n');
          }
          if Consistent(t) && (!repair || t.element != e) {
            ConsistentAt(t, p);
            PutConsistent(t, p, n');
          }
        }
    }
  }

  lemma PruneKeeps<E>(t: Node<E>, e: E)
    ensures WellRooted(t) ==> WellRooted(AfterPrune(t, e))
    ensures Consistent(t) ==> Consistent(AfterPrune(t, e))
  {
    match Find(t, e) {
      case None =>
      case Some(p) =>
        if IsLeaf(At(t, p)) && At(t, p).linked && p != [] {
          CutKeeps(t, p, false);
        }
    }
  }

  lemma RemoveGone<E>(cs: seq<Node<E>>, x: Node<E>)
    ensures !Member(Remove(cs, x), x)
  {
    forall i | 0 <= i < |Remove(cs, x)| ensures !Same(Remove(cs, x)[i], x) {
      RemoveHas(cs, x, Remove(cs, x)[i]);
    }
  }

  /** Cutting without repair takes the node's whole subtree away from its parent. */
  lemma CutElements<E>(t: Node<E>, p: Path)
    requires ValidPath(t, p) && p != [] && WellFormed(t)
    ensures ValidPath(Cut(t, p, false), Init(p)) && !Member(At(Cut(t, p, false), Init(p)).children, At(t, p))
    ensures Elements(t) == Elements(Cut(t, p, false)) + Elements(At(t, p))
  {
    var par, n := Above(t, p), At(t, p);
    var rest := Remove(par.children, n);
    var par' := par.(children := rest);
    WellFormedAt(t, Init(p));
    RemoveElements(par.children, Last(p), n);
    assert Elements(par) == Elements(par') + Elements(n);
    ElementsShrink(t, Init(p), par', Elements(n));
    PutAt(t, Init(p), par');
    RemoveGone(par.children, n);
  }

  /** Cutting with repair keeps the parent's other children first, and after them every child
      of the node has a `==` child under the parent. */
  lemma CutCovers<E>(t: Node<E>, p: Path)
    requires ValidPath(t, p) && p != []
    ensures ValidPath(Cut(t, p, true), Init(p))
    ensures var kids, rest := At(Cut(t, p, true), Init(p)).children, Remove(Above(t, p).children, At(t, p));
      |rest| <= |kids| && kids[..|rest|] == rest &&
      forall i :: 0 <= i < |At(t, p).children| ==> Member(kids, At(t, p).children[i])
  {
    var par, n := Above(t, p), At(t, p);
    var rest, more := Remove(par.children, n), Reparent(n.children, true);
    var kids := Union(rest, more);
    PutAt(t, Init(p), par.(children := kids));
    UnionPrefix(rest, more);
    forall i | 0 <= i < |n.children| ensures Member(kids, n.children[i]) {
      UnionCovers(rest, more, i);
      var k :| 0 <= k < |kids| && Same(kids[k], more[i]);
      assert Same(kids[k], n.children[i]);
    }
  }

  /** With no collisions, repair moves the node's children whole; only the node itself goes. */
  lemma CutFresh<E>(t: Node<E>, p: Path)
    requires ValidPath(t, p) && p != [] && WellFormed(t)
    requires Disjoint(Remove(Above(t, p).children, At(t, p)), At(t, p).children)
    ensures ValidPath(Cut(t, p, true), Init(p))
    ensures At(Cut(t, p, true), Init(p)).children
         == Remove(Above(t, p).children, At(t, p)) + Reparent(At(t, p).children, true)
    ensures Elements(t) == Elements(Cut(t, p, true)) + multiset{At(t, p).element}
  {
    var par, n := Above(t, p), At(t, p);
    var rest, more := Remove(par.children, n), Reparent(n.children, true);
    WellFormedAt(t, Init(p));
    WellFormedAt(t, p);
    assert Keyed(more);
    UnionFresh(rest, more);
    var par' := par.(children := rest + more);
    PutAt(t, Init(p), par');
    ElementsOfAppend(rest, more);
    ReparentElements(n.children, true);
    RemoveElements(par.children, Last(p), n);
    assert Elements(par) == Elements(par') + multiset{n.element};
    ElementsShrink(t, Init(p), par', multiset{n.element});
  }

  /** With `parent` absent, `unlink` returns nil and changes nothing. */
  lemma UnlinkAbsent<E>(t: Node<E>, e: E, repair: bool)
    requires e !in Elements(t)
    ensures AfterUnlink(t, e, repair) == t
  {
    FindIffIn(t, e);
  }

  /** `unlink` without repair discards the node's subtree; a node whose link is nil stays and
      loses all its children. */
  lemma UnlinkDiscards<E>(t: Node<E>, e: E, p: Path)
    requires Find(t, e) == Some(p) && WellRooted(t)
    ensures var n, u := At(t, p), AfterUnlink(t, e, false);
      if n.linked && p != [] then
        Elements(t) == Elements(u) + Elements(n) &&
        ValidPath(u, Init(p)) && !Member(At(u, Init(p)).children, n)
      else
        Elements(t) == Elements(u) + ElementsOf(n.children) &&
        ValidPath(u, p) && At(u, p) == Node(e, false, [])
  {
    var n := At(t, p);
    if n.linked && p != [] {
      CutElements(t, p);
    } else {
      var n' := n.(children := []);
      assert n' == Node(e, false, []);
      assert Elements(n) == Elements(n') + ElementsOf(n.children);
      ElementsShrink(t, p, n', ElementsOf(n.children));
      PutAt(t, p, n');
    }
  }

  /** `unlink` with repair of a linked node moves its children under its parent. */
  lemma UnlinkRepairs<E>(t: Node<E>, e: E, p: Path)
    requires Find(t, e) == Some(p) && At(t, p).linked && p != []
    ensures var u := AfterUnlink(t, e, true);
      ValidPath(u, Init(p)) &&
      var kids, rest := At(u, Init(p)).children, Remove(At(t, Init(p)).children, At(t, p));
      |rest| <= |kids| && kids[..|rest|] == rest &&
      (forall i :: 0 <= i < |At(t, p).children| ==> Member(kids, At(t, p).children[i])) &&
      (WellFormed(t) && Disjoint(rest, At(t, p).children) ==>
         kids == rest + Reparent(At(t, p).children, true) && Elements(t) == Elements(u) + multiset{e})
  {
    CutCovers(t, p);
    if WellFormed(t) && Disjoint(Remove(Above(t, p).children, At(t, p)), At(t, p).children) {
      CutFresh(t, p);
    }
  }

  /** `unlink` with repair of a node whose link is nil keeps its children and their elements,
      with nil links. */
  lemma UnlinkRepairsInPlace<E>(t: Node<E>, e: E, p: Path)
    requires Find(t, e) == Some(p) && !(At(t, p).linked && p != [])
    ensures var n, u := At(t, p), AfterUnlink(t, e, true);
      ValidPath(u, p) && At(u, p).element == e && At(u, p).linked == n.linked &&
      |At(u, p).children| == |n.children| &&
      (forall i :: 0 <= i < |n.children| ==> At(u, p).children[i] == n.children[i].(linked := false)) &&
      Elements(u) == Elements(t)
  {
    var n := At(t, p);
    var n' := n.(children := Reparent(n.children, false));
    ReparentElements(n.children, false);
    ElementsGrow(t, p, n', multiset{});
    PutAt(t, p, n');
  }

  /** So `unlink` of the origin with repair leaves children whose `parent` link is nil. */
  lemma UnlinkOriginRepair<E>(t: Node<E>)
    requires WellRooted(t) && |t.children| > 0
    ensures var u := AfterUnlink(t, t.element, true);
      Elements(u) == Elements(t) && u.children[0].element == t.children[0].element && !Consistent(u)
  {
    UnlinkRepairsInPlace(t, t.element, []);
  }

  /** `prune` of a linked leaf takes exactly its element away from its parent. */
  lemma PruneTakes<E>(t: Node<E>, e: E, p: Path)
    requires Find(t, e) == Some(p) && IsLeaf(At(t, p)) && At(t, p).linked && p != [] && WellFormed(t)
    ensures var u := AfterPrune(t, e);
      Elements(t) == Elements(u) + multiset{e} &&
      ValidPath(u, Init(p)) && !Member(At(u, Init(p)).children, At(t, p))
  {
    CutElements(t, p);
    assert Elements(At(t, p)) == multiset{e};
  }

  /** On a leaf, `prune` does what `unlink` without repair does. */
  lemma PruneIsUnlink<E>(t: Node<E>, e: E, p: Path)
    requires Find(t, e) == Some(p) && IsLeaf(At(t, p))
    ensures AfterPrune(t, e) == AfterUnlink(t, e, false)
  {
    var n := At(t, p);
    assert n.(children := []) == n;
    PutSame(t, p);
  }

  // ----- Lemmas: root path -----

  /** `rootPath` is empty exactly for an absent element, starts at it, and ends at the origin
      when every link is in place. */
  lemma RootPathFacts<E>(t: Node<E>, e: E)
    ensures RootPathOf(t, e) == [] <==> e !in Elements(t)
    ensures e in Elements(t) ==> RootPathOf(t, e)[0] == e
    ensures e in Elements(t) && Consistent(t) ==> RootPathOf(t, e)[|RootPathOf(t, e)| - 1] == t.element
  {
    FindIffIn(t, e);
    match Find(t, e) {
      case None =>
      case Some(p) =>
        ChainEnd(t, p);
        if Consistent(t) {
          ChainToOrigin(t, p);
        }
    }
  }
}

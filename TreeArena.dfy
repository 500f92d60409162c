/**
 * The nodes of BinarySearchTree.swift as an arena: each `BinarySearchNode`
 * is an id, and the arena maps it to its four fields. Setting a field is a
 * map update. A shape from TreeShape is realized by an arena when every
 * node of the shape has an entry whose value and child links are the
 * shape's (`Encodes`), and its parent links, except those of the nodes in
 * `stale`, point at the node above (`Parented`).
 *
 * The lemmas here are about plain maps: they say which updates keep a shape
 * realized, so that the class methods only have to call them.
 */
module TreeArena {
  import opened Wrappers
  import opened TreeShape

  datatype Node = Node(value: int, parent: Option<NodeId>, left: Option<NodeId>, right: Option<NodeId>)

  type Nodes = map<NodeId, Node>

  /** `node.left = c` */
  function WithLeft(nodes: Nodes, x: NodeId, c: Option<NodeId>): Nodes
    requires x in nodes
  {
    nodes[x := nodes[x].(left := c)]
  }

  /** `node.right = c` */
  function WithRight(nodes: Nodes, x: NodeId, c: Option<NodeId>): Nodes
    requires x in nodes
  {
    nodes[x := nodes[x].(right := c)]
  }

  /** `node.left = c` or `node.right = c` */
  function WithChild(nodes: Nodes, x: NodeId, right: bool, c: Option<NodeId>): Nodes
    requires x in nodes
  {
    if right then WithRight(nodes, x, c) else WithLeft(nodes, x, c)
  }

  /** `node.parent = c` */
  function WithParent(nodes: Nodes, x: NodeId, c: Option<NodeId>): Nodes
    requires x in nodes
  {
    nodes[x := nodes[x].(parent := c)]
  }

  /** `isLeftChild`: the node's parent has it as left child. */
  function IsLeftChild(nodes: Nodes, x: NodeId): bool {
    x in nodes && nodes[x].parent.Some? && nodes[x].parent.value in nodes && nodes[nodes[x].parent.value].left == Some(x)
  }

  /** `isRightChild`: the node's parent has it as right child. */
  function IsRightChild(nodes: Nodes, x: NodeId): bool {
    x in nodes && nodes[x].parent.Some? && nodes[x].parent.value in nodes && nodes[nodes[x].parent.value].right == Some(x)
  }

  /** Every node of `t` has an entry holding its value and the roots of its two subtrees. */
  ghost predicate Encodes(t: Tree, nodes: Nodes) {
    match t
    case Nil => true
    case Branch(id, v, l, r) =>
      && id in nodes && nodes[id].value == v && nodes[id].left == RootOf(l) && nodes[id].right == RootOf(r)
      && Encodes(l, nodes) && Encodes(r, nodes)
  }

  /** Every node of `t` not in `stale` has `up` (for the root) or the node above it as parent. */
  ghost predicate Parented(t: Tree, nodes: Nodes, up: Option<NodeId>, stale: set<NodeId>) {
    match t
    case Nil => true
    case Branch(id, _, l, r) =>
      && id in nodes && (id in stale || nodes[id].parent == up)
      && Parented(l, nodes, Some(id), stale) && Parented(r, nodes, Some(id), stale)
  }

  /** The parent links below the root of `t` are right; the root's own is not looked at. */
  ghost predicate ParentedUnder(t: Tree, nodes: Nodes, stale: set<NodeId>) {
    t.Nil? || (t.id in nodes && Parented(t.left, nodes, Some(t.id), stale) && Parented(t.right, nodes, Some(t.id), stale))
  }

  /** `a` and `b` agree on the value and the child links of every node in `ids` that `a` has. */
  ghost predicate SameLinks(ids: set<NodeId>, a: Nodes, b: Nodes) {
    forall id :: id in ids && id in a ==> id in b && b[id].value == a[id].value && b[id].left == a[id].left && b[id].right == a[id].right
  }

  /** `a` and `b` agree on the parent link of every node in `ids` that `a` has. */
  ghost predicate SameParents(ids: set<NodeId>, a: Nodes, b: Nodes) {
    forall id :: id in ids && id in a ==> id in b && b[id].parent == a[id].parent
  }

  /** The node above the one at `p`: `up` for the root. */
  ghost function UpOf(t: Tree, p: Path, up: Option<NodeId>): Option<NodeId> {
    if p == [] then up else RootOf(SubtreeAt(t, Init(p)))
  }

  // ----- Framing -----

  lemma SameLinksSmaller(small: set<NodeId>, big: set<NodeId>, a: Nodes, b: Nodes)
    requires small <= big && SameLinks(big, a, b)
    ensures SameLinks(small, a, b)
  {
  }

  lemma SameParentsSmaller(small: set<NodeId>, big: set<NodeId>, a: Nodes, b: Nodes)
    requires small <= big && SameParents(big, a, b)
    ensures SameParents(small, a, b)
  {
  }

  /** A shape stays realized by an arena that keeps the links of its nodes. */
  lemma {:induction false} EncodesFrame(t: Tree, a: Nodes, b: Nodes)
    requires Encodes(t, a) && SameLinks(Ids(t), a, b)
    ensures Encodes(t, b)
  {
    match t
    case Nil =>
    case Branch(id, v, l, r) =>
      SameLinksSmaller(Ids(l), Ids(t), a, b);
      SameLinksSmaller(Ids(r), Ids(t), a, b);
      EncodesFrame(l, a, b);
      EncodesFrame(r, a, b);
  }

  /** Parent links stay right in an arena that keeps the parents of the shape's nodes. */
  lemma {:induction false} ParentedFrame(t: Tree, a: Nodes, b: Nodes, up: Option<NodeId>, stale: set<NodeId>)
    requires Parented(t, a, up, stale) && SameParents(Ids(t), a, b)
    ensures Parented(t, b, up, stale)
  {
    match t
    case Nil =>
    case Branch(id, v, l, r) =>
      SameParentsSmaller(Ids(l), Ids(t), a, b);
      SameParentsSmaller(Ids(r), Ids(t), a, b);
      ParentedFrame(l, a, b, Some(id), stale);
      ParentedFrame(r, a, b, Some(id), stale);
  }

  /** Allowing more stale links keeps `Parented`. */
  lemma {:induction false} ParentedMoreStale(t: Tree, a: Nodes, up: Option<NodeId>, stale: set<NodeId>, more: set<NodeId>)
    requires Parented(t, a, up, stale) && stale <= more
    ensures Parented(t, a, up, more)
  {
    match t
    case Nil =>
    case Branch(id, v, l, r) =>
      ParentedMoreStale(l, a, Some(id), stale, more);
      ParentedMoreStale(r, a, Some(id), stale, more);
  }

  /** With its root's link stale, a shape is parented under any node. */
  lemma ParentedStaleRoot(t: Tree, a: Nodes, up: Option<NodeId>, other: Option<NodeId>, stale: set<NodeId>)
    requires t.Branch? && Parented(t, a, up, stale) && t.id in stale
    ensures Parented(t, a, other, stale)
  {
  }

  // ----- Positions -----

  lemma {:induction false} EncodesSubtree(t: Tree, p: Path, a: Nodes)
    requires InTree(t, p) && Encodes(t, a)
    ensures Encodes(SubtreeAt(t, p), a)
    decreases p
  {
    if p != [] {
      EncodesSubtree(Child(t, p[0]), p[1..], a);
    }
  }

  /** Stepping one turn into a path moves the node above into the subtree. */
  lemma UpOfStep(t: Tree, p: Path, up: Option<NodeId>)
    requires InTree(t, p) && p != []
    ensures UpOf(Child(t, p[0]), p[1..], RootOf(t)) == UpOf(t, p, up)
  {
    if p[1..] != [] {
      assert Init(p) == [p[0]] + Init(p[1..]);
      assert ([p[0]] + Init(p[1..]))[1..] == Init(p[1..]);
    }
  }

  lemma {:induction false} ParentedSubtree(t: Tree, p: Path, a: Nodes, up: Option<NodeId>, stale: set<NodeId>)
    requires InTree(t, p) && Parented(t, a, up, stale)
    ensures Parented(SubtreeAt(t, p), a, UpOf(t, p, up), stale)
    decreases p
  {
    if p != [] {
      UpOfStep(t, p, up);
      ParentedSubtree(Child(t, p[0]), p[1..], a, RootOf(t), stale);
    }
  }

  lemma {:induction false} InTreePrefix(t: Tree, p: Path, q: Path)
    requires InTree(t, p + q)
    ensures InTree(t, p)
    decreases p
  {
    if p != [] {
      assert (p + q)[0] == p[0] && (p + q)[1..] == p[1..] + q;
      InTreePrefix(Child(t, p[0]), p[1..], q);
    }
  }

  /** The node above a position that is not the root is a node of the shape, and the position is its child on the last turn. */
  lemma ParentOfPosition(t: Tree, p: Path)
    requires InTree(t, p) && p != []
    ensures InTree(t, Init(p)) && SubtreeAt(t, Init(p)).Branch?
    ensures SubtreeAt(t, p) == Child(SubtreeAt(t, Init(p)), Last(p))
  {
    assert p == Init(p) + [Last(p)];
    InTreePrefix(t, Init(p), [Last(p)]);
    SubtreeAppend(t, Init(p), [Last(p)]);
  }

  /**
   * The node at `p` is linked into place: its parent link names the node
   * above, whose link on the side of the last turn names it and whose other
   * link does not.
   */
  ghost predicate Hooked(t: Tree, p: Path, a: Nodes)
    requires InTree(t, p) && SubtreeAt(t, p).Branch?
  {
    var n := SubtreeAt(t, p).id;
    && n in a && a[n].parent == UpOf(t, p, None)
    && (p != [] ==>
      var q := SubtreeAt(t, Init(p));
      && q.Branch? && q.id in a
      && (a[q.id].left == Some(n) <==> !Last(p))
      && (a[q.id].right == Some(n) <==> Last(p)))
  }

  /** On a realized shape without stale links every node is hooked. */
  lemma ChildSide(t: Tree, p: Path, a: Nodes)
    requires InTree(t, p) && SubtreeAt(t, p).Branch? && UniqueIds(t)
    requires Encodes(t, a) && Parented(t, a, None, {})
    ensures Hooked(t, p, a)
  {
    ParentedSubtree(t, p, a, None, {});
    EncodesSubtree(t, p, a);
    if p != [] {
      ParentOfPosition(t, p);
      EncodesSubtree(t, Init(p), a);
      UniqueApart(t, Init(p));
    }
  }

  /**
   * `isLeftChild` and `isRightChild` on a realized shape without stale
   * links: a node is flagged a left child exactly when it is the left child
   * of some node of the shape, and a right child exactly when it is a right
   * child.
   */
  lemma ChildFlags(t: Tree, a: Nodes, x: NodeId)
    requires UniqueIds(t) && Encodes(t, a) && Parented(t, a, None, {}) && x in Ids(t)
    ensures IsLeftChild(a, x) <==> LeftChildIn(t, x)
    ensures IsRightChild(a, x) <==> RightChildIn(t, x)
  {
    var p := PathOf(t, x);
    ChildSide(t, p, a);
    ChildByPath(t, x);
  }

  /** The node above a position is still there once the position is emptied. */
  lemma AboveInHole(t: Tree, p: Path)
    requires InTree(t, p) && p != [] && SubtreeAt(t, Init(p)).Branch?
    ensures SubtreeAt(t, Init(p)).id in Ids(ReplaceAt(t, p, Nil))
  {
    var g := SubtreeAt(t, Init(p));
    assert p == Init(p) + [Last(p)];
    InTreePrefix(t, Init(p), [Last(p)]);
    ReplaceAppend(t, Init(p), [Last(p)], Nil);
    ReplaceAtIds(t, Init(p), ReplaceAt(g, [Last(p)], Nil));
  }

  /** Emptying a position keeps the parent links of the rest. */
  lemma {:induction false} ParentedHole(t: Tree, p: Path, a: Nodes, up: Option<NodeId>, stale: set<NodeId>)
    requires InTree(t, p) && Parented(t, a, up, stale)
    ensures Parented(ReplaceAt(t, p, Nil), a, up, stale)
    decreases p
  {
    if p != [] {
      match t
      case Branch(id, x, l, r) =>
        if p[0] {
          ParentedHole(r, p[1..], a, Some(id), stale);
          assert ReplaceAt(t, p, Nil) == Branch(id, x, l, ReplaceAt(r, p[1..], Nil));
        } else {
          ParentedHole(l, p[1..], a, Some(id), stale);
          assert ReplaceAt(t, p, Nil) == Branch(id, x, ReplaceAt(l, p[1..], Nil), r);
        }
    }
  }

  // ----- Replacing a subtree -----

  /**
   * Relinking one node: when the node above position `p` now links to the
   * root of `f` on that side and nothing else in the rest of the shape
   * changed its links, the shape with `f` at `p` is realized.
   */
  lemma EncodesReplace(t: Tree, p: Path, f: Tree, a: Nodes, b: Nodes)
    requires InTree(t, p) && p != [] && SubtreeAt(t, p).Branch? && UniqueIds(t)
    requires Encodes(t, a) && Encodes(f, b)
    requires SubtreeAt(t, Init(p)).Branch?
    requires
      var q := SubtreeAt(t, Init(p)).id;
      && SameLinks(Ids(ReplaceAt(t, p, Nil)) - {q}, a, b)
      && q in a && q in b && b[q].value == a[q].value
      && b[q].left == (if Last(p) then a[q].left else RootOf(f))
      && b[q].right == (if Last(p) then RootOf(f) else a[q].right)
    ensures Encodes(ReplaceAt(t, p, f), b)
  {
    var g := SubtreeAt(t, Init(p));
    assert p == Init(p) + [Last(p)];
    InTreePrefix(t, Init(p), [Last(p)]);
    ReplaceAppend(t, Init(p), [Last(p)], f);
    ReplaceAppend(t, Init(p), [Last(p)], Nil);
    ReplaceAtIds(t, Init(p), ReplaceAt(g, [Last(p)], Nil));
    UniqueApart(t, Init(p));
    SubtreeContents(t, Init(p));
    HoleIds(t, Init(p));
    EncodesSubtree(t, Init(p), a);
    ReplaceAtIds(g, [Last(p)], Nil);
    EncodesRelinkChild(g, Last(p), f, a, b);
    SameLinksSmaller(Ids(ReplaceAt(t, Init(p), Nil)), Ids(ReplaceAt(t, p, Nil)) - {g.id}, a, b);
    EncodesPlugged(t, Init(p), ReplaceAt(g, [Last(p)], f), a, b);
  }

  /** Putting at `p` a realized shape with the same root keeps the rest realized when its links are kept. */
  lemma {:induction false} EncodesPlugged(t: Tree, p: Path, g: Tree, a: Nodes, b: Nodes)
    requires InTree(t, p) && Encodes(t, a) && Encodes(g, b) && RootOf(g) == RootOf(SubtreeAt(t, p))
    requires SameLinks(Ids(ReplaceAt(t, p, Nil)), a, b)
    ensures Encodes(ReplaceAt(t, p, g), b)
    decreases p
  {
    if p != [] {
      match t
      case Branch(id, x, l, r) =>
        if p[0] {
          assert ReplaceAt(t, p, Nil) == Branch(id, x, l, ReplaceAt(r, p[1..], Nil));
          SameLinksSmaller(Ids(ReplaceAt(r, p[1..], Nil)), Ids(ReplaceAt(t, p, Nil)), a, b);
          SameLinksSmaller(Ids(l), Ids(ReplaceAt(t, p, Nil)), a, b);
          EncodesPlugged(r, p[1..], g, a, b);
          EncodesFrame(l, a, b);
          RootKept(r, p[1..], g);
          assert ReplaceAt(t, p, g) == Branch(id, x, l, ReplaceAt(r, p[1..], g));
        } else {
          assert ReplaceAt(t, p, Nil) == Branch(id, x, ReplaceAt(l, p[1..], Nil), r);
          SameLinksSmaller(Ids(ReplaceAt(l, p[1..], Nil)), Ids(ReplaceAt(t, p, Nil)), a, b);
          SameLinksSmaller(Ids(r), Ids(ReplaceAt(t, p, Nil)), a, b);
          EncodesPlugged(l, p[1..], g, a, b);
          EncodesFrame(r, a, b);
          RootKept(l, p[1..], g);
          assert ReplaceAt(t, p, g) == Branch(id, x, ReplaceAt(l, p[1..], g), r);
        }
    }
  }

  /** Replacing a subtree by one with the same root keeps the root of the whole. */
  lemma RootKept(t: Tree, p: Path, g: Tree)
    requires InTree(t, p) && RootOf(g) == RootOf(SubtreeAt(t, p))
    ensures RootOf(ReplaceAt(t, p, g)) == RootOf(t)
  {
  }

  /** `EncodesReplace` for a child of the root. */
  lemma EncodesRelinkChild(t: Tree, right: bool, f: Tree, a: Nodes, b: Nodes)
    requires t.Branch? && UniqueIds(t) && Encodes(t, a) && Encodes(f, b)
    requires SameLinks(Ids(ReplaceAt(t, [right], Nil)) - {t.id}, a, b)
    requires t.id in b && b[t.id].value == a[t.id].value
    requires b[t.id].left == (if right then a[t.id].left else RootOf(f))
    requires b[t.id].right == (if right then RootOf(f) else a[t.id].right)
    ensures Encodes(ReplaceAt(t, [right], f), b)
  {
    var p := [right];
    assert p[1..] == [];
    if right {
      assert ReplaceAt(t, p, Nil) == Branch(t.id, t.value, t.left, Nil);
      assert ReplaceAt(t, p, f) == Branch(t.id, t.value, t.left, f);
      SameLinksSmaller(Ids(t.left), Ids(ReplaceAt(t, p, Nil)) - {t.id}, a, b);
      EncodesFrame(t.left, a, b);
    } else {
      assert ReplaceAt(t, p, Nil) == Branch(t.id, t.value, Nil, t.right);
      assert ReplaceAt(t, p, f) == Branch(t.id, t.value, f, t.right);
      SameLinksSmaller(Ids(t.right), Ids(ReplaceAt(t, p, Nil)) - {t.id}, a, b);
      EncodesFrame(t.right, a, b);
    }
  }

  /** Parent links stay right when the rest of the shape keeps its parents and `f` hangs under the node above `p`. */
  lemma {:induction false} ParentedReplace(t: Tree, p: Path, f: Tree, a: Nodes, b: Nodes, up: Option<NodeId>, stale: set<NodeId>)
    requires InTree(t, p) && Parented(ReplaceAt(t, p, Nil), a, up, stale)
    requires SameParents(Ids(ReplaceAt(t, p, Nil)), a, b)
    requires Parented(f, b, UpOf(t, p, up), stale)
    ensures Parented(ReplaceAt(t, p, f), b, up, stale)
    decreases p
  {
    if p != [] {
      match t
      case Branch(id, x, l, r) =>
        UpOfStep(t, p, up);
        if p[0] {
          assert ReplaceAt(t, p, Nil) == Branch(id, x, l, ReplaceAt(r, p[1..], Nil));
          SameParentsSmaller(Ids(ReplaceAt(r, p[1..], Nil)), Ids(ReplaceAt(t, p, Nil)), a, b);
          SameParentsSmaller(Ids(l), Ids(ReplaceAt(t, p, Nil)), a, b);
          ParentedReplace(r, p[1..], f, a, b, Some(id), stale);
          ParentedFrame(l, a, b, Some(id), stale);
          assert ReplaceAt(t, p, f) == Branch(id, x, l, ReplaceAt(r, p[1..], f));
        } else {
          assert ReplaceAt(t, p, Nil) == Branch(id, x, ReplaceAt(l, p[1..], Nil), r);
          SameParentsSmaller(Ids(ReplaceAt(l, p[1..], Nil)), Ids(ReplaceAt(t, p, Nil)), a, b);
          SameParentsSmaller(Ids(r), Ids(ReplaceAt(t, p, Nil)), a, b);
          ParentedReplace(l, p[1..], f, a, b, Some(id), stale);
          ParentedFrame(r, a, b, Some(id), stale);
          assert ReplaceAt(t, p, f) == Branch(id, x, ReplaceAt(l, p[1..], f), r);
        }
    }
  }

  // ----- Insertion -----

  lemma {:induction false} EncodesIds(t: Tree, a: Nodes)
    requires Encodes(t, a)
    ensures Ids(t) <= a.Keys
  {
    match t
    case Nil =>
    case Branch(_, _, l, r) =>
      EncodesIds(l, a);
      EncodesIds(r, a);
  }

  /**
   * The arena after `insert(value:)` reached node `x`: a new node `c`
   * holding `v` is hung on the side `right` says, and its parent set to `x`.
   */
  ghost function Attached(a: Nodes, x: NodeId, right: bool, c: NodeId, v: int): Nodes
    requires x in a
  {
    WithParent(WithChild(a[c := Node(v, None, None, None)], x, right, Some(c)), c, Some(x))
  }

  /** What `Attached` changes: the new entry, one link of `x`, and nothing else. */
  ghost predicate AttachedAt(a: Nodes, b: Nodes, x: NodeId, right: bool, c: NodeId, v: int)
    requires x in a
  {
    && b.Keys == a.Keys + {c}
    && b[c] == Node(v, Some(x), None, None)
    && b[x] == (if right then a[x].(right := Some(c)) else a[x].(left := Some(c)))
    && forall y :: y in a && y != x ==> b[y] == a[y]
  }

  lemma AttachedEntries(a: Nodes, x: NodeId, right: bool, c: NodeId, v: int)
    requires x in a && c !in a
    ensures AttachedAt(a, Attached(a, x, right, c, v), x, right, c, v)
  {
  }

  /** The arena after insertion realizes the shape after insertion. */
  lemma {:induction false} InsertEncodes(t: Tree, v: int, c: NodeId, a: Nodes, b: Nodes)
    requires t.Branch? && Encodes(t, a) && UniqueIds(t) && c !in a && AttachPoint(t, v).id in a
    requires AttachedAt(a, b, AttachPoint(t, v).id, !(v < AttachPoint(t, v).value), c, v)
    ensures Encodes(InsertInto(t, v, c), b)
    decreases t
  {
    match t
    case Branch(id, y, l, r) =>
      if v < y {
        if l.Branch? {
          InsertEncodes(l, v, c, a, b);
        }
        EncodesFrame(r, a, b);
      } else {
        if r.Branch? {
          InsertEncodes(r, v, c, a, b);
        }
        EncodesFrame(l, a, b);
      }
  }

  /** ... and keeps its parent links. */
  lemma {:induction false} InsertParented(t: Tree, v: int, c: NodeId, a: Nodes, b: Nodes, up: Option<NodeId>, stale: set<NodeId>)
    requires t.Branch? && Encodes(t, a) && UniqueIds(t) && c !in a && AttachPoint(t, v).id in a
    requires Parented(t, a, up, stale)
    requires AttachedAt(a, b, AttachPoint(t, v).id, !(v < AttachPoint(t, v).value), c, v)
    ensures Parented(InsertInto(t, v, c), b, up, stale)
    decreases t
  {
    match t
    case Branch(id, y, l, r) =>
      if v < y {
        if l.Branch? {
          InsertParented(l, v, c, a, b, Some(id), stale);
        }
        ParentedFrame(r, a, b, Some(id), stale);
      } else {
        if r.Branch? {
          InsertParented(r, v, c, a, b, Some(id), stale);
        }
        ParentedFrame(l, a, b, Some(id), stale);
      }
  }

  // ----- Unhooking a node -----

  /**
   * `remove()` once `findReplacement()` returned `r`: the parent's link that
   * named `n` (the left one when `isLeftChild`, otherwise the right one)
   * names `r`, `r` takes `n`'s parent, and `n` loses all three links.
   */
  ghost function Spliced(a: Nodes, n: NodeId, r: Option<NodeId>): Nodes
    requires n in a && (a[n].parent.Some? ==> a[n].parent.value in a) && (r.Some? ==> r.value in a)
  {
    var up := a[n].parent;
    var a1 := if up.None? then a else WithChild(a, up.value, !IsLeftChild(a, n), r);
    var a2 := if r.None? then a1 else WithParent(a1, r.value, up);
    a2[n := a2[n].(parent := None, left := None, right := None)]
  }

  /** What `Spliced` changes when `n`, its parent and `r` are three different nodes. */
  ghost predicate SplicedAt(a: Nodes, b: Nodes, n: NodeId, r: Option<NodeId>)
    requires n in a
  {
    && b.Keys == a.Keys
    && b[n] == Node(a[n].value, None, None, None)
    && (forall y :: y in a && y != n && Some(y) != a[n].parent ==>
         b[y].value == a[y].value && b[y].left == a[y].left && b[y].right == a[y].right)
    && (forall y :: y in a && y != n && Some(y) != r ==> b[y].parent == a[y].parent)
    && (a[n].parent.Some? ==>
      var q := a[n].parent.value;
      q in a && b[q] == (if IsLeftChild(a, n) then a[q].(left := r) else a[q].(right := r)))
    && (r.Some? ==> r.value in a && b[r.value] == a[r.value].(parent := a[n].parent))
  }

  lemma SplicedEntries(a: Nodes, n: NodeId, r: Option<NodeId>)
    requires n in a
    requires a[n].parent.Some? ==> a[n].parent.value in a && a[n].parent.value != n
    requires r.Some? ==> r.value in a && r.value != n && r != a[n].parent
    ensures SplicedAt(a, Spliced(a, n, r), n, r)
  {
  }

  /** After the splice the shape with the replacement in the removed node's place is realized. */
  lemma SpliceEncodes(t: Tree, p: Path, f: Tree, a: Nodes, b: Nodes)
    requires InTree(t, p) && SubtreeAt(t, p).Branch? && UniqueIds(t) && Encodes(t, a) && Hooked(t, p, a)
    requires Encodes(f, a) && Ids(f) !! Ids(ReplaceAt(t, p, Nil)) && SubtreeAt(t, p).id !in Ids(f)
    requires SplicedAt(a, b, SubtreeAt(t, p).id, RootOf(f))
    ensures Encodes(ReplaceAt(t, p, f), b)
  {
    var n := SubtreeAt(t, p).id;
    UniqueApart(t, p);
    SubtreeContents(t, p);
    if p != [] {
      AboveInHole(t, p);
    }
    assert a[n].parent.None? || a[n].parent.value in Ids(ReplaceAt(t, p, Nil));
    assert SameLinks(Ids(f), a, b);
    EncodesFrame(f, a, b);
    if p != [] {
      EncodesReplace(t, p, f, a, b);
    }
  }

  /** ... and its parent links are right except those in `stale`. */
  lemma SpliceParents(t: Tree, p: Path, f: Tree, a: Nodes, b: Nodes, stale: set<NodeId>)
    requires InTree(t, p) && SubtreeAt(t, p).Branch? && UniqueIds(t) && Hooked(t, p, a)
    requires Parented(ReplaceAt(t, p, Nil), a, None, stale)
    requires UniqueIds(f) && ParentedUnder(f, a, stale)
    requires Ids(f) !! Ids(ReplaceAt(t, p, Nil)) && SubtreeAt(t, p).id !in Ids(f)
    requires SplicedAt(a, b, SubtreeAt(t, p).id, RootOf(f))
    ensures Parented(ReplaceAt(t, p, f), b, None, stale)
  {
    var n := SubtreeAt(t, p).id;
    UniqueApart(t, p);
    SubtreeContents(t, p);
    if p != [] {
      AboveInHole(t, p);
    }
    assert SameParents(Ids(ReplaceAt(t, p, Nil)), a, b);
    if f.Branch? {
      assert SameParents(Ids(f.left), a, b);
      assert SameParents(Ids(f.right), a, b);
      ParentedFrame(f.left, a, b, Some(f.id), stale);
      ParentedFrame(f.right, a, b, Some(f.id), stale);
    }
    ParentedReplace(t, p, f, a, b, None, stale);
  }

  /**
   * The whole of `remove()`'s relinking: with `g`, the node at `p` once
   * `findReplacement()` returned, hooked in place and `f` its replacement,
   * the arena after the splice realizes the shape with `f` at `p`.
   */
  lemma Unhooked(t: Tree, p: Path, t1: Tree, g: Tree, f: Tree, a: Nodes, b: Nodes, stale: set<NodeId>)
    requires InTree(t, p) && SubtreeAt(t, p).Branch? && UniqueIds(t)
    requires g.Branch? && g.id == SubtreeAt(t, p).id && t1 == ReplaceAt(t, p, g) && UniqueIds(t1)
    requires InTree(t1, p) && SubtreeAt(t1, p) == g
    requires Encodes(t1, a) && Hooked(t1, p, a) && Parented(ReplaceAt(t1, p, Nil), a, None, {})
    requires Encodes(f, a) && UniqueIds(f) && ParentedUnder(f, a, stale)
    requires Ids(f) <= Ids(SubtreeAt(t, p)) - {g.id}
    requires b == Spliced(a, g.id, RootOf(f))
    ensures Encodes(ReplaceAt(t, p, f), b) && Parented(ReplaceAt(t, p, f), b, None, stale)
    ensures b.Keys == a.Keys && b[g.id] == Node(a[g.id].value, None, None, None)
    ensures forall y :: y in a && y != g.id && Some(y) != RootOf(f) ==> b[y].parent == a[y].parent
  {
    ReplaceTwice(t, p, g, f);
    ReplaceTwice(t, p, g, Nil);
    UniqueApart(t, p);
    SubtreeContents(t, p);
    SpliceAt(t1, p, f, a, b, stale);
  }

  /** `Unhooked` in terms of the shape before the splice. */
  lemma SpliceAt(t1: Tree, p: Path, f: Tree, a: Nodes, b: Nodes, stale: set<NodeId>)
    requires InTree(t1, p) && SubtreeAt(t1, p).Branch? && UniqueIds(t1)
    requires Encodes(t1, a) && Hooked(t1, p, a) && Parented(ReplaceAt(t1, p, Nil), a, None, {})
    requires Encodes(f, a) && UniqueIds(f) && ParentedUnder(f, a, stale)
    requires Ids(f) !! Ids(ReplaceAt(t1, p, Nil)) && SubtreeAt(t1, p).id !in Ids(f)
    requires b == Spliced(a, SubtreeAt(t1, p).id, RootOf(f))
    ensures Encodes(ReplaceAt(t1, p, f), b) && Parented(ReplaceAt(t1, p, f), b, None, stale)
    ensures b.Keys == a.Keys && b[SubtreeAt(t1, p).id] == Node(a[SubtreeAt(t1, p).id].value, None, None, None)
    ensures forall y :: y in a && y != SubtreeAt(t1, p).id && Some(y) != RootOf(f) ==> b[y].parent == a[y].parent
  {
    var n := SubtreeAt(t1, p).id;
    UniqueApart(t1, p);
    SubtreeContents(t1, p);
    if p != [] {
      AboveInHole(t1, p);
    }
    SplicedEntries(a, n, RootOf(f));
    SpliceEncodes(t1, p, f, a, b);
    ParentedMoreStale(ReplaceAt(t1, p, Nil), a, None, {}, stale);
    SpliceParents(t1, p, f, a, b, stale);
  }

  /** What removal as written leaves stale: the left child, and the right child unless it was the successor. */
  ghost function StaleAfter(t: Tree): set<NodeId>
    requires t.Branch?
  {
    if HasTwoChildren(t) then {t.left.id} + (if t.right.left.Nil? then {} else {t.right.id}) else {}
  }

  /**
   * `findReplacement()` as written once the successor is out: the successor
   * takes the left child and, unless it was the right child itself, the
   * right child, whose parent links still name the removed node.
   */
  lemma HungAsWritten(t1: Tree, p: Path, t0: Tree, a: Nodes, b: Nodes)
    requires InTree(t1, p) && HasTwoChildren(t0) && SubtreeAt(t1, p) == Pruned(t0) && UniqueIds(t1)
    requires Encodes(t1, a) && Parented(t1, a, None, {})
    requires Successor(t0).id in a && Successor(t0).id !in Ids(t1) && a[Successor(t0).id].value == Successor(t0).value
    requires b == WithRight(WithLeft(a, Successor(t0).id, Some(t0.left.id)), Successor(t0).id, RootOf(Replacement(t0).right))
    ensures Encodes(t1, b) && Parented(t1, b, None, {})
    ensures Encodes(Replacement(t0), b) && ParentedUnder(Replacement(t0), b, StaleAfter(t0))
    ensures b.Keys == a.Keys && t0.left.id in b && b[t0.left.id].parent == Some(t0.id)
  {
    var s := Successor(t0).id;
    var g := Pruned(t0);
    var st := StaleAfter(t0);
    assert SameLinks(Ids(t1), a, b) && SameParents(Ids(t1), a, b);
    EncodesFrame(t1, a, b);
    ParentedFrame(t1, a, b, None, {});
    EncodesSubtree(t1, p, b);
    ParentedSubtree(t1, p, b, None, {});
    ParentedMoreStale(t0.left, b, Some(t0.id), {}, st);
    ParentedStaleRoot(t0.left, b, Some(t0.id), Some(s), st);
    if t0.right.left.Branch? {
      var w := RightWithoutSuccessor(t0);
      assert w.Branch? && w.id == t0.right.id;
      ParentedMoreStale(w, b, Some(t0.id), {}, st);
      ParentedStaleRoot(w, b, Some(t0.id), Some(s), st);
    }
  }

  /**
   * The repaired `findReplacement()` once the successor is out:
   * `successor.left = left`, `left.parent = successor`,
   * `successor.right = self.right`, `self.right?.parent = successor`.
   */
  ghost function Rehung(a: Nodes, n: NodeId, s: NodeId, l: NodeId): Nodes
    requires n in a && s in a && l in a
  {
    var a1 := WithParent(WithLeft(a, s, Some(l)), l, Some(s));
    var rest := a1[n].right;
    var a2 := WithRight(a1, s, rest);
    if rest.Some? && rest.value in a2 then WithParent(a2, rest.value, Some(s)) else a2
  }

  /** What `Rehung` changes when the nodes involved are different. */
  ghost predicate RehungAt(a: Nodes, b: Nodes, s: NodeId, l: NodeId, rest: Option<NodeId>)
    requires s in a && l in a && (rest.Some? ==> rest.value in a)
  {
    && b.Keys == a.Keys
    && b[s] == a[s].(left := Some(l), right := rest)
    && b[l] == a[l].(parent := Some(s))
    && (rest.Some? ==> b[rest.value] == a[rest.value].(parent := Some(s)))
    && (forall y :: y in a && y != s ==>
         b[y].value == a[y].value && b[y].left == a[y].left && b[y].right == a[y].right)
    && (forall y :: y in a && y != l && Some(y) != rest ==> b[y].parent == a[y].parent)
  }

  lemma RehungEntries(a: Nodes, n: NodeId, s: NodeId, l: NodeId)
    requires n in a && s in a && l in a && n != s && n != l && s != l
    requires a[n].right.Some? ==> a[n].right.value in a && a[n].right.value != s && a[n].right.value != l
    ensures RehungAt(a, Rehung(a, n, s, l), s, l, a[n].right)
  {
  }

  /** The repaired `findReplacement()` hangs both subtrees under the successor with their parent links right. */
  lemma HungFixed(t1: Tree, p: Path, t0: Tree, a: Nodes, b: Nodes)
    requires InTree(t1, p) && HasTwoChildren(t0) && SubtreeAt(t1, p) == Pruned(t0) && UniqueIds(t1)
    requires Encodes(t1, a) && Parented(t1, a, None, {}) && Hooked(t1, p, a)
    requires Successor(t0).id in a && Successor(t0).id !in Ids(t1) && a[Successor(t0).id].value == Successor(t0).value
    requires t0.id in a && t0.left.id in a
    requires b == Rehung(a, t0.id, Successor(t0).id, t0.left.id)
    ensures Encodes(t1, b) && Hooked(t1, p, b) && Parented(ReplaceAt(t1, p, Nil), b, None, {})
    ensures Encodes(FixedReplacement(t0), b) && ParentedUnder(FixedReplacement(t0), b, {})
    ensures b.Keys == a.Keys
  {
    var s := Successor(t0).id;
    var g := Pruned(t0);
    var w := RightWithoutSuccessor(t0);
    EncodesSubtree(t1, p, a);
    ParentedSubtree(t1, p, a, None, {});
    UniqueApart(t1, p);
    SubtreeContents(t1, p);
    var rest := a[t0.id].right;
    assert rest == RootOf(w);
    RehungEntries(a, t0.id, s, t0.left.id);
    HungFixedLinks(t1, p, t0, a, b, rest);
    HungFixedParents(t1, p, t0, a, b, rest);
  }

  lemma HungFixedLinks(t1: Tree, p: Path, t0: Tree, a: Nodes, b: Nodes, rest: Option<NodeId>)
    requires InTree(t1, p) && HasTwoChildren(t0) && SubtreeAt(t1, p) == Pruned(t0) && UniqueIds(t1)
    requires Encodes(t1, a) && Parented(t1, a, None, {}) && Hooked(t1, p, a)
    requires Successor(t0).id in a && Successor(t0).id !in Ids(t1) && a[Successor(t0).id].value == Successor(t0).value
    requires rest == RootOf(RightWithoutSuccessor(t0)) && t0.left.id in a && (rest.Some? ==> rest.value in a)
    requires Ids(ReplaceAt(t1, p, Nil)) !! Ids(Pruned(t0)) && UniqueIds(Pruned(t0))
    requires RehungAt(a, b, Successor(t0).id, t0.left.id, rest)
    ensures Encodes(t1, b) && Hooked(t1, p, b) && Parented(ReplaceAt(t1, p, Nil), b, None, {})
    ensures Encodes(FixedReplacement(t0), b)
  {
    var g := Pruned(t0);
    SubtreeContents(t1, p);
    HoleIds(t1, p);
    assert SameLinks(Ids(t1), a, b);
    EncodesFrame(t1, a, b);
    EncodesSubtree(t1, p, b);
    ParentedHole(t1, p, a, None, {});
    assert SameParents(Ids(ReplaceAt(t1, p, Nil)), a, b);
    ParentedFrame(ReplaceAt(t1, p, Nil), a, b, None, {});
    assert t0.id != t0.left.id && Some(t0.id) != rest by {
      assert t0.left.id in Ids(t0.left);
      assert rest.Some? ==> rest.value in Ids(RightWithoutSuccessor(t0));
    }
    if p != [] {
      AboveInHole(t1, p);
      assert SubtreeAt(t1, Init(p)).id != Successor(t0).id;
    }
    HookedFrame(t1, p, a, b);
  }

  /** A hooked node stays hooked while its entry and that of the node above keep their links. */
  lemma HookedFrame(t: Tree, p: Path, a: Nodes, b: Nodes)
    requires InTree(t, p) && SubtreeAt(t, p).Branch? && Hooked(t, p, a)
    requires SubtreeAt(t, p).id in b && b[SubtreeAt(t, p).id].parent == a[SubtreeAt(t, p).id].parent
    requires p != [] ==>
      var q := SubtreeAt(t, Init(p)).id;
      q in b && b[q].left == a[q].left && b[q].right == a[q].right
    ensures Hooked(t, p, b)
  {
  }

  lemma HungFixedParents(t1: Tree, p: Path, t0: Tree, a: Nodes, b: Nodes, rest: Option<NodeId>)
    requires InTree(t1, p) && HasTwoChildren(t0) && SubtreeAt(t1, p) == Pruned(t0) && UniqueIds(t1)
    requires Parented(Pruned(t0), a, UpOf(t1, p, None), {})
    requires Successor(t0).id in a && Successor(t0).id !in Ids(t1)
    requires rest == RootOf(RightWithoutSuccessor(t0)) && t0.left.id in a && (rest.Some? ==> rest.value in a)
    requires UniqueIds(Pruned(t0)) && Ids(Pruned(t0)) <= Ids(t1)
    requires RehungAt(a, b, Successor(t0).id, t0.left.id, rest)
    ensures ParentedUnder(FixedReplacement(t0), b, {})
  {
    var s := Successor(t0).id;
    var l := t0.left;
    var w := RightWithoutSuccessor(t0);
    assert SameParents(Ids(l.left), a, b) && SameParents(Ids(l.right), a, b);
    ParentedFrame(l.left, a, b, Some(l.id), {});
    ParentedFrame(l.right, a, b, Some(l.id), {});
    if w.Branch? {
      assert SameParents(Ids(w.left), a, b) && SameParents(Ids(w.right), a, b);
      ParentedFrame(w.left, a, b, Some(w.id), {});
      ParentedFrame(w.right, a, b, Some(w.id), {});
    }
  }

  /** On a shape without stale links, each node's parent link names the node above. */
  lemma ParentAt(t: Tree, q: Path, a: Nodes)
    requires InTree(t, q) && SubtreeAt(t, q).Branch?
    ensures Parented(t, a, None, {}) ==> SubtreeAt(t, q).id in a && a[SubtreeAt(t, q).id].parent == UpOf(t, q, None)
  {
    if Parented(t, a, None, {}) {
      ParentedSubtree(t, q, a, None, {});
    }
  }

  // ----- One call of findReplacement() -----

  /** `findReplacement()` of a node with at most one child: that child, already in place. */
  lemma OneChildPlaced(t: Tree, p: Path, a: Nodes)
    requires InTree(t, p) && SubtreeAt(t, p).Branch? && !HasTwoChildren(SubtreeAt(t, p)) && UniqueIds(t)
    requires Encodes(t, a) && Parented(t, a, None, {})
    ensures ReplaceAt(t, p, Pruned(SubtreeAt(t, p))) == t
    ensures Hooked(t, p, a) && Parented(ReplaceAt(t, p, Nil), a, None, {})
    ensures Encodes(Replacement(SubtreeAt(t, p)), a) && ParentedUnder(Replacement(SubtreeAt(t, p)), a, {})
    ensures FixedReplacement(SubtreeAt(t, p)) == Replacement(SubtreeAt(t, p))
  {
    ReplaceSame(t, p);
    ChildSide(t, p, a);
    ParentedHole(t, p, a, None, {});
    EncodesSubtree(t, p, a);
    ParentedSubtree(t, p, a, None, {});
  }

  /**
   * `findReplacement()` as written for a node with two children, once the
   * successor is out of its place: `successor.left = left`, and
   * `successor.right = right` unless `right` is the successor, `nil` then.
   */
  lemma SuccessorHung(t: Tree, p: Path, a: Nodes, b: Nodes)
    requires InTree(t, p) && HasTwoChildren(SubtreeAt(t, p)) && UniqueIds(t)
    requires
      var t0 := SubtreeAt(t, p);
      var s := Successor(t0).id;
      && UniqueIds(ReplaceAt(t, p, Pruned(t0)))
      && Encodes(ReplaceAt(t, p, Pruned(t0)), a) && Parented(ReplaceAt(t, p, Pruned(t0)), a, None, {})
      && s in a && a[s].value == Successor(t0).value
      && b == WithRight(WithLeft(a, s, Some(t0.left.id)), s, if t0.right.id != s then Some(t0.right.id) else None)
    ensures
      var t0 := SubtreeAt(t, p);
      var t1 := ReplaceAt(t, p, Pruned(t0));
      && InTree(t1, p) && SubtreeAt(t1, p) == Pruned(t0)
      && Encodes(t1, b) && Hooked(t1, p, b) && Parented(ReplaceAt(t1, p, Nil), b, None, {})
      && Encodes(Replacement(t0), b) && ParentedUnder(Replacement(t0), b, StaleAfter(t0))
      && b.Keys == a.Keys && t0.left.id in b && b[t0.left.id].parent == Some(t0.id)
  {
    var t0 := SubtreeAt(t, p);
    var t1 := ReplaceAt(t, p, Pruned(t0));
    UniqueApart(t, p);
    SubtreeReplaced(t, p, Pruned(t0));
    SuccessorGone(t, p);
    SuccessorIsRight(t0);
    assert RootOf(Replacement(t0).right) == (if t0.right.id != Successor(t0).id then Some(t0.right.id) else None);
    HungAsWritten(t1, p, t0, a, b);
    ChildSide(t1, p, b);
    ParentedHole(t1, p, b, None, {});
  }

  /** The repaired `findReplacement()` for a node with two children, once the successor is out of its place. */
  lemma SuccessorRehung(t: Tree, p: Path, a: Nodes, b: Nodes)
    requires InTree(t, p) && HasTwoChildren(SubtreeAt(t, p)) && UniqueIds(t)
    requires
      var t0 := SubtreeAt(t, p);
      var s := Successor(t0).id;
      && UniqueIds(ReplaceAt(t, p, Pruned(t0)))
      && Encodes(ReplaceAt(t, p, Pruned(t0)), a) && Parented(ReplaceAt(t, p, Pruned(t0)), a, None, {})
      && s in a && a[s].value == Successor(t0).value && t0.id in a && t0.left.id in a
      && b == Rehung(a, t0.id, s, t0.left.id)
    ensures
      var t0 := SubtreeAt(t, p);
      var t1 := ReplaceAt(t, p, Pruned(t0));
      && InTree(t1, p) && SubtreeAt(t1, p) == Pruned(t0)
      && Encodes(t1, b) && Hooked(t1, p, b) && Parented(ReplaceAt(t1, p, Nil), b, None, {})
      && Encodes(FixedReplacement(t0), b) && ParentedUnder(FixedReplacement(t0), b, {})
      && b.Keys == a.Keys
  {
    var t0 := SubtreeAt(t, p);
    var t1 := ReplaceAt(t, p, Pruned(t0));
    SubtreeReplaced(t, p, Pruned(t0));
    SuccessorGone(t, p);
    ChildSide(t1, p, a);
    HungFixed(t1, p, t0, a, b);
  }

  /** After a removal as written of a node with two children, the left child's parent link names the removed node: a stale link. */
  lemma LeftLinkStale(t: Tree, p: Path, b: Nodes)
    requires InTree(t, p) && HasTwoChildren(SubtreeAt(t, p)) && UniqueIds(t)
    requires SubtreeAt(t, p).left.id in b && b[SubtreeAt(t, p).left.id].parent == Some(SubtreeAt(t, p).id)
    ensures !Parented(ReplaceAt(t, p, Replacement(SubtreeAt(t, p))), b, None, {})
  {
    var t0 := SubtreeAt(t, p);
    var t2 := ReplaceAt(t, p, Replacement(t0));
    UniqueApart(t, p);
    SuccessorApart(t0);
    SubtreeReplaced(t, p, Replacement(t0));
    SubtreeAppend(t2, p, [false]);
    assert Init(p + [false]) == p;
    ParentAt(t2, p + [false], b);
  }

  /**
   * One call of `remove()` as written: once `findReplacement()` has left
   * the node at `p` hooked in place with its replacement realized beside
   * it, the splice leaves the tree with the replacement in its place.
   */
  lemma SplicedOut(t: Tree, p: Path, a: Nodes, b: Nodes)
    requires InTree(t, p) && SubtreeAt(t, p).Branch? && UniqueIds(t) && Ordered(t)
    requires
      var t0 := SubtreeAt(t, p);
      var t1 := ReplaceAt(t, p, Pruned(t0));
      && UniqueIds(t1) && InTree(t1, p) && SubtreeAt(t1, p) == Pruned(t0)
      && Encodes(t1, a) && Hooked(t1, p, a) && Parented(ReplaceAt(t1, p, Nil), a, None, {})
      && Encodes(Replacement(t0), a) && ParentedUnder(Replacement(t0), a, StaleAfter(t0))
      && (HasTwoChildren(t0) ==> t0.left.id in a && a[t0.left.id].parent == Some(t0.id))
      && b == Spliced(a, t0.id, RootOf(Replacement(t0)))
    ensures
      var t0 := SubtreeAt(t, p);
      var t2 := ReplaceAt(t, p, Replacement(t0));
      && Encodes(t2, b) && UniqueIds(t2) && Ordered(t2) && Parented(t2, b, None, StaleAfter(t0))
      && b.Keys == a.Keys && t0.id in b && b[t0.id] == Node(t0.value, None, None, None)
      && (HasTwoChildren(t0) ==> t0.left.id in b && b[t0.left.id].parent == Some(t0.id))
  {
    var t0 := SubtreeAt(t, p);
    var t1 := ReplaceAt(t, p, Pruned(t0));
    EncodesSubtree(t1, p, a);
    UniqueApart(t, p);
    ReplacementIds(t0);
    Unhooked(t, p, t1, Pruned(t0), Replacement(t0), a, b, StaleAfter(t0));
    ReplacedAsWritten(t, p);
    if HasTwoChildren(t0) {
      SuccessorApart(t0);
    }
  }

  /** One call of the repaired `remove()`. */
  lemma SplicedOutFixed(t: Tree, p: Path, a: Nodes, b: Nodes)
    requires InTree(t, p) && SubtreeAt(t, p).Branch? && UniqueIds(t) && Ordered(t)
    requires
      var t0 := SubtreeAt(t, p);
      var t1 := ReplaceAt(t, p, Pruned(t0));
      && UniqueIds(t1) && InTree(t1, p) && SubtreeAt(t1, p) == Pruned(t0)
      && Encodes(t1, a) && Hooked(t1, p, a) && Parented(ReplaceAt(t1, p, Nil), a, None, {})
      && Encodes(FixedReplacement(t0), a) && ParentedUnder(FixedReplacement(t0), a, {})
      && b == Spliced(a, t0.id, RootOf(FixedReplacement(t0)))
    ensures
      var t0 := SubtreeAt(t, p);
      var t2 := ReplaceAt(t, p, FixedReplacement(t0));
      && Encodes(t2, b) && UniqueIds(t2) && Ordered(t2) && Parented(t2, b, None, {})
      && b.Keys == a.Keys && t0.id in b && b[t0.id] == Node(t0.value, None, None, None)
  {
    var t0 := SubtreeAt(t, p);
    var t1 := ReplaceAt(t, p, Pruned(t0));
    EncodesSubtree(t1, p, a);
    UniqueApart(t, p);
    FixedReplacementIds(t0);
    Unhooked(t, p, t1, Pruned(t0), FixedReplacement(t0), a, b, {});
    ReplacedFixed(t, p);
  }
}

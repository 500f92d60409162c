/**
 * BinarySearchTree.swift: a binary search tree of reference-type nodes,
 * each with a value and `parent`, `left` and `right` links. Nodes live in
 * an arena (TreeArena), the tree holds the id of its root, and a ghost
 * shape (TreeShape) is the tree the links describe; every method is proved
 * to move the shape as the shape-level definitions say.
 *
 * Values are integers, compared with `<` and `>` as `Comparable` does.
 */
module BinarySearchTree {
  import opened Wrappers
  import opened TreeShape
  import opened TreeArena

  /** `BinarySearchTreeTraversalOrder` */
  datatype TraversalOrder = InOrderTraversal | PreOrderTraversal | PostOrderTraversal

  /** The values a traversal hands to its callback, in order. */
  ghost function Walk(t: Tree, order: TraversalOrder): seq<int> {
    match order
    case InOrderTraversal => InOrder(t)
    case PreOrderTraversal => PreOrder(t)
    case PostOrderTraversal => PostOrder(t)
  }

  /** Every id the arena has handed out is below `next`. */
  ghost predicate Fresh(nodes: Nodes, next: NodeId) {
    forall id :: id in nodes ==> id < next
  }

  class BinarySearchTree {
    var root: Option<NodeId>
    var nodes: Nodes
    var nextId: NodeId
    ghost var shape: Tree

    /** The arena realizes an ordered shape without shared nodes. */
    ghost predicate Formed()
      reads this
    {
      Encodes(shape, nodes) && UniqueIds(shape) && Ordered(shape) && Fresh(nodes, nextId)
    }

    /** ... and `root` is its root. */
    ghost predicate Valid()
      reads this
    {
      Formed() && root == RootOf(shape)
    }

    /** ... and every parent link is right. */
    ghost predicate Linked()
      reads this
    {
      Valid() && Parented(shape, nodes, None, {})
    }

    /** `init(value:)`: a tree of one node. */
    constructor (value: int)
      ensures Linked() && shape == Branch(0, value, Nil, Nil) && nextId == 1
    {
      root := Some(0);
      nodes := map[0 := Node(value, None, None, None)];
      nextId := 1;
      shape := Branch(0, value, Nil, Nil);
    }

    // ----- Finding items -----

    /** `min()` of a node: follow `left` while there is one. */
    method MinNode(n: NodeId, ghost t: Tree) returns (m: NodeId)
      requires t.Branch? && t.id == n && Encodes(t, nodes)
      ensures m == SubtreeAt(t, LeftSpine(t)).id
      decreases t
    {
      var left := nodes[n].left;
      if left.None? {
        return n;
      }
      m := MinNode(left.value, t.left);
      assert ([false] + LeftSpine(t.left))[1..] == LeftSpine(t.left);
    }

    /** `max()` of a node: follow `right` while there is one. */
    method MaxNode(n: NodeId, ghost t: Tree) returns (m: NodeId)
      requires t.Branch? && t.id == n && Encodes(t, nodes)
      ensures m == SubtreeAt(t, RightSpine(t)).id
      decreases t
    {
      var right := nodes[n].right;
      if right.None? {
        return n;
      }
      m := MaxNode(right.value, t.right);
      assert ([true] + RightSpine(t.right))[1..] == RightSpine(t.right);
    }

    /** `node(for:)`: the node `Find` stops at, or None. */
    method NodeFor(n: NodeId, v: int, ghost t: Tree) returns (r: Option<NodeId>)
      requires t.Branch? && t.id == n && Encodes(t, nodes)
      ensures Find(t, v).None? ==> r.None?
      ensures Find(t, v).Some? ==> r == Some(SubtreeAt(t, Find(t, v).value).id)
      decreases t
    {
      var node := nodes[n];
      if v < node.value {
        if node.left.None? {
          return None;
        }
        r := NodeFor(node.left.value, v, t.left);
        if Find(t.left, v).Some? {
          assert ([false] + Find(t.left, v).value)[1..] == Find(t.left, v).value;
        }
      } else if v > node.value {
        if node.right.None? {
          return None;
        }
        r := NodeFor(node.right.value, v, t.right);
        if Find(t.right, v).Some? {
          assert ([true] + Find(t.right, v).value)[1..] == Find(t.right, v).value;
        }
      } else {
        r := Some(n);
      }
    }

    /** `contains(value:)`: true exactly when the tree stores `v`. */
    method Contains(v: int) returns (b: bool)
      requires Valid()
      ensures b <==> v in Values(shape)
    {
      if root.None? {
        return false;
      }
      var t := NodeFor(root.value, v, shape);
      FindIffStored(shape, v);
      b := t.Some?;
    }

    /** `min()`: the least stored value, or None for an empty tree. */
    method Min() returns (r: Option<int>)
      requires Valid()
      ensures r.None? <==> shape.Nil?
      ensures r.Some? ==> r.value in Values(shape) && forall y :: y in Values(shape) ==> r.value <= y
    {
      if root.None? {
        return None;
      }
      var m := MinNode(root.value, shape);
      EncodesSubtree(shape, LeftSpine(shape), nodes);
      LeastValue(shape);
      r := Some(nodes[m].value);
    }

    /** `max()`: the greatest stored value, or None for an empty tree. */
    method Max() returns (r: Option<int>)
      requires Valid()
      ensures r.None? <==> shape.Nil?
      ensures r.Some? ==> r.value in Values(shape) && forall y :: y in Values(shape) ==> y <= r.value
    {
      if root.None? {
        return None;
      }
      var m := MaxNode(root.value, shape);
      EncodesSubtree(shape, RightSpine(shape), nodes);
      GreatestValue(shape);
      r := Some(nodes[m].value);
    }

    /** `traverse(inOrder:)`: the values the callback receives. */
    method TraverseInOrder(n: NodeId, ghost t: Tree) returns (visited: seq<int>)
      requires t.Branch? && t.id == n && Encodes(t, nodes)
      ensures visited == InOrder(t)
      decreases t
    {
      var node := nodes[n];
      var before: seq<int> := [];
      if node.left.Some? {
        before := TraverseInOrder(node.left.value, t.left);
      }
      var after: seq<int> := [];
      if node.right.Some? {
        after := TraverseInOrder(node.right.value, t.right);
      }
      visited := before + [node.value] + after;
    }

    /** `traverse(preOrder:)` */
    method TraversePreOrder(n: NodeId, ghost t: Tree) returns (visited: seq<int>)
      requires t.Branch? && t.id == n && Encodes(t, nodes)
      ensures visited == PreOrder(t)
      decreases t
    {
      var node := nodes[n];
      var left: seq<int> := [];
      if node.left.Some? {
        left := TraversePreOrder(node.left.value, t.left);
      }
      var right: seq<int> := [];
      if node.right.Some? {
        right := TraversePreOrder(node.right.value, t.right);
      }
      visited := [node.value] + left + right;
    }

    /** `traverse(postOrder:)` */
    method TraversePostOrder(n: NodeId, ghost t: Tree) returns (visited: seq<int>)
      requires t.Branch? && t.id == n && Encodes(t, nodes)
      ensures visited == PostOrder(t)
      decreases t
    {
      var node := nodes[n];
      var left: seq<int> := [];
      if node.left.Some? {
        left := TraversePostOrder(node.left.value, t.left);
      }
      var right: seq<int> := [];
      if node.right.Some? {
        right := TraversePostOrder(node.right.value, t.right);
      }
      visited := left + right + [node.value];
    }

    /** `traverse(order:callback:)`: nothing for an empty tree. */
    method Traverse(order: TraversalOrder) returns (visited: seq<int>)
      requires Valid()
      ensures visited == Walk(shape, order)
    {
      if root.None? {
        return [];
      }
      match order
      case InOrderTraversal => visited := TraverseInOrder(root.value, shape);
      case PreOrderTraversal => visited := TraversePreOrder(root.value, shape);
      case PostOrderTraversal => visited := TraversePostOrder(root.value, shape);
    }

    // ----- Inserting items -----

    /**
     * `insert(value:)` of a node: go left below values greater than `v`,
     * otherwise right, and hang a new node on the first empty side.
     */
    method NodeInsert(n: NodeId, v: int, ghost t: Tree)
      requires t.Branch? && t.id == n && Encodes(t, nodes) && Ids(t) <= nodes.Keys && nextId !in nodes
      modifies this
      ensures nodes == Attached(old(nodes), AttachPoint(t, v).id, !(v < AttachPoint(t, v).value), old(nextId), v)
      ensures nextId == old(nextId) + 1 && root == old(root) && shape == old(shape)
      decreases t
    {
      var node := nodes[n];
      if v < node.value {
        if node.left.Some? {
          NodeInsert(node.left.value, v, t.left);
        } else {
          var c := nextId;
          nextId := nextId + 1;
          nodes := nodes[c := Node(v, None, None, None)];
          nodes := WithLeft(nodes, n, Some(c));
          nodes := WithParent(nodes, c, Some(n));
        }
      } else {
        if node.right.Some? {
          NodeInsert(node.right.value, v, t.right);
        } else {
          var c := nextId;
          nextId := nextId + 1;
          nodes := nodes[c := Node(v, None, None, None)];
          nodes := WithRight(nodes, n, Some(c));
          nodes := WithParent(nodes, c, Some(n));
        }
      }
    }

    /** `insert(value:)`: the shape gains a leaf holding `v`; an empty tree gets it as root. */
    method Insert(v: int)
      requires Valid()
      modifies this
      ensures Valid() && shape == InsertInto(old(shape), v, old(nextId))
      ensures old(Linked()) ==> Linked()
      ensures nextId == old(nextId) + 1
    {
      var c := nextId;
      if root.None? {
        nodes := nodes[c := Node(v, None, None, None)];
        nextId := nextId + 1;
        root := Some(c);
        shape := Branch(c, v, Nil, Nil);
        return;
      }
      ghost var a := nodes;
      ghost var t := shape;
      ghost var x := AttachPoint(t, v);
      EncodesIds(t, a);
      NodeInsert(root.value, v, shape);
      AttachedEntries(a, x.id, !(v < x.value), c, v);
      InsertEncodes(t, v, c, a, nodes);
      if Parented(t, a, None, {}) {
        InsertParented(t, v, c, a, nodes, None, {});
      }
      InsertIds(t, v, c);
      InsertUnique(t, v, c);
      InsertOrdered(t, v, c);
      shape := InsertInto(t, v, c);
    }
  

    // ----- Removing items, as written -----

    /**
     * `findReplacement()`: nothing for a leaf, the only child for one child;
     * with two children, the successor (`right.min()`) is removed from its
     * place and takes the left child and, unless it is the right child
     * itself, the right child. The children's parent links are not set.
     */
    method FindReplacement(n: NodeId, ghost p: Path) returns (r: Option<NodeId>)
      requires Formed() && Parented(shape, nodes, None, {})
      requires InTree(shape, p) && SubtreeAt(shape, p).Branch? && SubtreeAt(shape, p).id == n
      modifies this
      ensures shape == ReplaceAt(old(shape), p, Pruned(old(SubtreeAt(shape, p))))
      ensures Formed() && InTree(shape, p) && SubtreeAt(shape, p) == Pruned(old(SubtreeAt(shape, p)))
      ensures Hooked(shape, p, nodes) && Parented(ReplaceAt(shape, p, Nil), nodes, None, {})
      ensures r == RootOf(Replacement(old(SubtreeAt(shape, p))))
      ensures Encodes(Replacement(old(SubtreeAt(shape, p))), nodes)
      ensures ParentedUnder(Replacement(old(SubtreeAt(shape, p))), nodes, StaleAfter(old(SubtreeAt(shape, p))))
      ensures HasTwoChildren(old(SubtreeAt(shape, p))) ==>
        old(SubtreeAt(shape, p)).left.id in nodes && nodes[old(SubtreeAt(shape, p)).left.id].parent == Some(n)
      ensures nodes.Keys == old(nodes).Keys && root == old(root) && nextId == old(nextId)
      decreases Size(SubtreeAt(shape, p)), 0
    {
      ghost var t := shape;
      ghost var t0 := SubtreeAt(shape, p);
      EncodesSubtree(t, p, nodes);
      UniqueApart(t, p);
      var left := nodes[n].left;
      var right := nodes[n].right;
      if left.Some? && right.Some? {
        SuccessorPosition(t, p);
        ghost var q := p + [true] + LeftSpine(t0.right);
        var successor := MinNode(right.value, t0.right);
        var _ := NodeRemove(successor, q);
        ghost var a := nodes;
        EncodesSubtree(t, q, old(nodes));
        nodes := WithLeft(nodes, successor, left);
        if right.value != successor {
          nodes := WithRight(nodes, successor, right);
        } else {
          nodes := WithRight(nodes, successor, None);
        }
        SuccessorHung(t, p, a, nodes);
        r := Some(successor);
      } else {
        OneChildPlaced(t, p, nodes);
        r := if left.Some? then left else right;
      }
    }

    /**
     * `remove()` of a node: the parent's link on the node's side names the
     * replacement, the replacement takes the node's parent, and the node
     * loses its three links. Returns the replacement.
     */
    method NodeRemove(n: NodeId, ghost p: Path) returns (r: Option<NodeId>)
      requires Formed() && Parented(shape, nodes, None, {})
      requires InTree(shape, p) && SubtreeAt(shape, p).Branch? && SubtreeAt(shape, p).id == n
      modifies this
      ensures shape == ReplaceAt(old(shape), p, Replacement(old(SubtreeAt(shape, p))))
      ensures r == RootOf(Replacement(old(SubtreeAt(shape, p))))
      ensures Formed() && Parented(shape, nodes, None, StaleAfter(old(SubtreeAt(shape, p))))
      ensures nodes.Keys == old(nodes).Keys && n in nodes && nodes[n] == Node(old(SubtreeAt(shape, p)).value, None, None, None)
      ensures HasTwoChildren(old(SubtreeAt(shape, p))) ==>
        old(SubtreeAt(shape, p)).left.id in nodes && nodes[old(SubtreeAt(shape, p)).left.id].parent == Some(n)
      ensures root == old(root) && nextId == old(nextId)
      decreases Size(SubtreeAt(shape, p)), 1
    {
      ghost var t := shape;
      ghost var t0 := SubtreeAt(shape, p);
      r := FindReplacement(n, p);
      ghost var a := nodes;
      var b := nodes;
      var parent := b[n].parent;
      if parent.Some? {
        if IsLeftChild(b, n) {
          b := WithLeft(b, parent.value, r);
        } else {
          b := WithRight(b, parent.value, r);
        }
      }
      if r.Some? {
        b := WithParent(b, r.value, parent);
      }
      b := b[n := b[n].(parent := None, left := None, right := None)];
      assert b == Spliced(a, n, r);
      SplicedOut(t, p, a, b);
      nodes := b;
      shape := ReplaceAt(t, p, Replacement(t0));
    }

    /**
     * `remove(value:)`: finds the node and removes it; `root` moves to the
     * replacement when the root was removed and there is a replacement, so
     * a root without children stays. A removal of a node with two children
     * leaves stale parent links.
     */
    method Remove(v: int)
      requires Linked()
      modifies this
      ensures Valid() && shape == RemoveAsWritten(old(shape), v)
      ensures RemovesTwoChildNode(old(shape), v) ==> !Linked()
      ensures !RemovesTwoChildNode(old(shape), v) ==> Linked()
      ensures nextId == old(nextId)
    {
      if root.None? {
        return;
      }
      var present := NodeFor(root.value, v, shape);
      if present.None? {
        return;
      }
      ghost var t := shape;
      ghost var p := Find(t, v).value;
      ghost var t0 := SubtreeAt(t, p);
      if p != [] {
        RootOnlyAtTop(t, p);
      }
      var replacement := NodeRemove(present.value, p);
      SubtreeReplaced(t, p, Replacement(t0));
      if replacement.None? {
        if p == [] {
          shape := t;
        }
        return;
      }
      if present == root {
        root := replacement;
      }
      if HasTwoChildren(t0) {
        LeftLinkStale(t, p, nodes);
      }
    }
  

    // ----- Removing items, repaired -----

    /**
     * `findReplacement()` with the parent links it leaves out set:
     * `left.parent = successor`, and the successor takes `self.right` as it
     * is once the successor is out, which is `right` without the successor
     * in every case, with `self.right?.parent = successor`.
     */
    method FindReplacementFixed(n: NodeId, ghost p: Path) returns (r: Option<NodeId>)
      requires Formed() && Parented(shape, nodes, None, {})
      requires InTree(shape, p) && SubtreeAt(shape, p).Branch? && SubtreeAt(shape, p).id == n
      modifies this
      ensures shape == ReplaceAt(old(shape), p, Pruned(old(SubtreeAt(shape, p))))
      ensures Formed() && InTree(shape, p) && SubtreeAt(shape, p) == Pruned(old(SubtreeAt(shape, p)))
      ensures Hooked(shape, p, nodes) && Parented(ReplaceAt(shape, p, Nil), nodes, None, {})
      ensures r == RootOf(FixedReplacement(old(SubtreeAt(shape, p))))
      ensures Encodes(FixedReplacement(old(SubtreeAt(shape, p))), nodes)
      ensures ParentedUnder(FixedReplacement(old(SubtreeAt(shape, p))), nodes, {})
      ensures nodes.Keys == old(nodes).Keys && root == old(root) && nextId == old(nextId)
      decreases Size(SubtreeAt(shape, p)), 0
    {
      ghost var t := shape;
      ghost var t0 := SubtreeAt(shape, p);
      EncodesSubtree(t, p, nodes);
      UniqueApart(t, p);
      var left := nodes[n].left;
      var right := nodes[n].right;
      if left.Some? && right.Some? {
        SuccessorPosition(t, p);
        ghost var q := p + [true] + LeftSpine(t0.right);
        var successor := MinNode(right.value, t0.right);
        var _ := NodeRemoveFixed(successor, q);
        ghost var a := nodes;
        EncodesSubtree(t, q, old(nodes));
        SubtreeReplaced(t, p, Pruned(t0));
        EncodesSubtree(shape, p, a);
        var b := nodes;
        b := WithLeft(b, successor, left);
        b := WithParent(b, left.value, Some(successor));
        var rest := b[n].right;
        b := WithRight(b, successor, rest);
        if rest.Some? {
          b := WithParent(b, rest.value, Some(successor));
        }
        assert b == Rehung(a, n, successor, left.value);
        SuccessorRehung(t, p, a, b);
        nodes := b;
        r := Some(successor);
      } else {
        OneChildPlaced(t, p, nodes);
        r := if left.Some? then left else right;
      }
    }

    /** `remove()` of a node over the repaired `findReplacement()`: no parent link is left stale. */
    method NodeRemoveFixed(n: NodeId, ghost p: Path) returns (r: Option<NodeId>)
      requires Formed() && Parented(shape, nodes, None, {})
      requires InTree(shape, p) && SubtreeAt(shape, p).Branch? && SubtreeAt(shape, p).id == n
      modifies this
      ensures shape == ReplaceAt(old(shape), p, FixedReplacement(old(SubtreeAt(shape, p))))
      ensures r == RootOf(FixedReplacement(old(SubtreeAt(shape, p))))
      ensures Formed() && Parented(shape, nodes, None, {})
      ensures nodes.Keys == old(nodes).Keys && n in nodes && nodes[n] == Node(old(SubtreeAt(shape, p)).value, None, None, None)
      ensures root == old(root) && nextId == old(nextId)
      decreases Size(SubtreeAt(shape, p)), 1
    {
      ghost var t := shape;
      ghost var t0 := SubtreeAt(shape, p);
      r := FindReplacementFixed(n, p);
      ghost var a := nodes;
      var b := nodes;
      var parent := b[n].parent;
      if parent.Some? {
        if IsLeftChild(b, n) {
          b := WithLeft(b, parent.value, r);
        } else {
          b := WithRight(b, parent.value, r);
        }
      }
      if r.Some? {
        b := WithParent(b, r.value, parent);
      }
      b := b[n := b[n].(parent := None, left := None, right := None)];
      assert b == Spliced(a, n, r);
      SplicedOutFixed(t, p, a, b);
      nodes := b;
      shape := ReplaceAt(t, p, FixedReplacement(t0));
    }

    /**
     * `remove(value:)` repaired: the node removal above, and `root` moves
     * whenever the root was removed, to nothing when it had no children.
     */
    method RemoveFixed(v: int)
      requires Linked()
      modifies this
      ensures Linked() && shape == TreeShape.RemoveFixed(old(shape), v) && nextId == old(nextId)
    {
      if root.None? {
        return;
      }
      var present := NodeFor(root.value, v, shape);
      if present.None? {
        return;
      }
      ghost var t := shape;
      ghost var p := Find(t, v).value;
      if p != [] {
        RootOnlyAtTop(t, p);
      }
      var replacement := NodeRemoveFixed(present.value, p);
      if present == root {
        root := replacement;
      }
    }
  }

  // ----- What removal does on small trees -----

  /** As written, removing the value of a tree's only node leaves the node in place. */
  method RootLeafKept() returns (t: BinarySearchTree)
    ensures t.Linked() && t.shape == Branch(0, 5, Nil, Nil) && t.root == Some(0)
  {
    t := new BinarySearchTree(5);
    t.Remove(5);
  }

  /** The repaired removal empties it. */
  method RootLeafRemoved() returns (t: BinarySearchTree)
    ensures t.Linked() && t.shape == Nil && t.root.None?
  {
    t := new BinarySearchTree(5);
    t.RemoveFixed(5);
  }

  /** As written, removing a node with two children leaves a parent link naming the removed node. */
  method LinksLeftStale() returns (t: BinarySearchTree)
    ensures t.Valid() && !t.Linked()
  {
    t := new BinarySearchTree(5);
    t.Insert(3);
    t.Insert(8);
    t.Remove(5);
  }

  /** 5 with 3 on the left and 8 on the right, 9 right of 8: the successor of 5 is its right child. */
  ghost const FourNodes := Branch(0, 5, Branch(1, 3, Nil, Nil), Branch(2, 8, Nil, Branch(3, 9, Nil, Nil)))

  lemma FourNodesAsWritten()
    ensures RemoveAsWritten(FourNodes, 5) == Branch(2, 8, Branch(1, 3, Nil, Nil), Nil)
    ensures Values(RemoveAsWritten(FourNodes, 5)) == multiset{3, 8}
  {
    var t := FourNodes;
    assert Find(t, 5) == Some([]);
    assert Successor(t) == t.right;
  }

  lemma FourNodesFixed()
    ensures TreeShape.RemoveFixed(FourNodes, 5) == Branch(2, 8, Branch(1, 3, Nil, Nil), Branch(3, 9, Nil, Nil))
    ensures Values(TreeShape.RemoveFixed(FourNodes, 5)) == multiset{3, 8, 9}
  {
    var t := FourNodes;
    assert Find(t, 5) == Some([]);
    assert Successor(t) == t.right;
  }

  /** As written, removing 5 from 5 (3, 8 (-, 9)) loses 9 with it. */
  method SubtreeLost() returns (t: BinarySearchTree)
    ensures t.Valid() && Values(t.shape) == multiset{3, 8}
  {
    t := new BinarySearchTree(5);
    t.Insert(3);
    t.Insert(8);
    t.Insert(9);
    assert t.shape == FourNodes;
    FourNodesAsWritten();
    t.Remove(5);
  }

  /** The repaired removal keeps 9 and every parent link. */
  method SubtreeKept() returns (t: BinarySearchTree)
    ensures t.Linked() && Values(t.shape) == multiset{3, 8, 9}
  {
    t := new BinarySearchTree(5);
    t.Insert(3);
    t.Insert(8);
    t.Insert(9);
    assert t.shape == FourNodes;
    FourNodesFixed();
    t.RemoveFixed(5);
  }
}

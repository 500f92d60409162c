/**
 * The shape of a binary search tree as a value: the nodes that can be
 * reached from `root` in BinarySearchTree.swift, each with its node id and
 * its value. A position in the tree is the path of turns from the root
 * (`false` for left, `true` for right). Insertion, lookup, the three
 * traversals and removal are defined here on shapes; the arena model in
 * BinarySearchTree.dfy is proved to realize them.
 */
module TreeShape {
  import opened Wrappers

  type NodeId = nat

  /** The turns from the root to a position: `false` goes left, `true` goes right. */
  type Path = seq<bool>

  datatype Tree = Nil | Branch(id: NodeId, value: int, left: Tree, right: Tree)

  function RootOf(t: Tree): Option<NodeId> {
    if t.Nil? then None else Some(t.id)
  }

  function Child(t: Tree, right: bool): Tree
    requires t.Branch?
  {
    if right then t.right else t.left
  }

  ghost function Ids(t: Tree): set<NodeId> {
    match t
    case Nil => {}
    case Branch(id, _, l, r) => {id} + Ids(l) + Ids(r)
  }

  ghost function Values(t: Tree): multiset<int> {
    match t
    case Nil => multiset{}
    case Branch(_, v, l, r) => Values(l) + multiset{v} + Values(r)
  }

  function Size(t: Tree): nat {
    match t
    case Nil => 0
    case Branch(_, _, l, r) => Size(l) + 1 + Size(r)
  }

  /** No node is reachable along two paths. */
  ghost predicate UniqueIds(t: Tree) {
    match t
    case Nil => true
    case Branch(id, _, l, r) =>
      id !in Ids(l) && id !in Ids(r) && Ids(l) !! Ids(r) && UniqueIds(l) && UniqueIds(r)
  }

  /** Every value in `t` is below `v`. */
  ghost predicate Below(t: Tree, v: int) {
    match t
    case Nil => true
    case Branch(_, x, l, r) => x < v && Below(l, v) && Below(r, v)
  }

  /** Every value in `t` is at or above `v`. */
  ghost predicate AtLeast(t: Tree, v: int) {
    match t
    case Nil => true
    case Branch(_, x, l, r) => v <= x && AtLeast(l, v) && AtLeast(r, v)
  }

  /**
   * The order insertion keeps: everything left of a node is below its value
   * and everything right of it is at or above it (equal values go right).
   */
  ghost predicate Ordered(t: Tree) {
    match t
    case Nil => true
    case Branch(_, v, l, r) => Below(l, v) && AtLeast(r, v) && Ordered(l) && Ordered(r)
  }

  /** Following `p` from the root stays on nodes until its last turn. */
  ghost predicate InTree(t: Tree, p: Path)
    decreases p
  {
    p == [] || (t.Branch? && InTree(Child(t, p[0]), p[1..]))
  }

  ghost function SubtreeAt(t: Tree, p: Path): Tree
    decreases p
  {
    if p == [] then t
    else if t.Nil? then Nil
    else SubtreeAt(Child(t, p[0]), p[1..])
  }

  /** `t` with the subtree at `p` replaced by `s`. */
  ghost function ReplaceAt(t: Tree, p: Path, s: Tree): Tree
    decreases p
  {
    if p == [] then s
    else match t
      case Nil => Nil
      case Branch(id, v, l, r) =>
        if p[0] then Branch(id, v, l, ReplaceAt(r, p[1..], s))
        else Branch(id, v, ReplaceAt(l, p[1..], s), r)
  }

  /** Every path but the empty one ends with a turn out of the node it names. */
  function Init(p: Path): Path
    requires p != []
  {
    p[..|p| - 1]
  }

  function Last(p: Path): bool
    requires p != []
  {
    p[|p| - 1]
  }

  ghost function InOrder(t: Tree): seq<int> {
    match t
    case Nil => []
    case Branch(_, v, l, r) => InOrder(l) + [v] + InOrder(r)
  }

  ghost function PreOrder(t: Tree): seq<int> {
    match t
    case Nil => []
    case Branch(_, v, l, r) => [v] + PreOrder(l) + PreOrder(r)
  }

  ghost function PostOrder(t: Tree): seq<int> {
    match t
    case Nil => []
    case Branch(_, v, l, r) => PostOrder(l) + PostOrder(r) + [v]
  }

  ghost predicate Ascending(s: seq<int>) {
    forall i, j :: 0 <= i < j < |s| ==> s[i] <= s[j]
  }

  /**
   * Where `node(for:)` stops: it goes left while `v` is below a node's value,
   * right while it is above, and takes the first node that is neither.
   */
  ghost function Find(t: Tree, v: int): (r: Option<Path>)
    ensures r.Some? ==> InTree(t, r.value) && SubtreeAt(t, r.value).Branch? && SubtreeAt(t, r.value).value == v
  {
    match t
    case Nil => None
    case Branch(_, x, l, r) =>
      if v < x then
        match Find(l, v)
        case None => None
        case Some(p) => assert ([false] + p)[1..] == p; Some([false] + p)
      else if v > x then
        match Find(r, v)
        case None => None
        case Some(p) => assert ([true] + p)[1..] == p; Some([true] + p)
      else Some([])
  }

  /** The path `min()` follows: left until there is no left child. */
  ghost function LeftSpine(t: Tree): (p: Path)
    requires t.Branch?
    ensures InTree(t, p) && SubtreeAt(t, p).Branch? && SubtreeAt(t, p).left.Nil?
    ensures forall i :: 0 <= i < |p| ==> !p[i]
  {
    if t.left.Nil? then []
    else
      var q := LeftSpine(t.left);
      assert ([false] + q)[1..] == q;
      [false] + q
  }

  /** The path `max()` follows: right until there is no right child. */
  ghost function RightSpine(t: Tree): (p: Path)
    requires t.Branch?
    ensures InTree(t, p) && SubtreeAt(t, p).Branch? && SubtreeAt(t, p).right.Nil?
  {
    if t.right.Nil? then []
    else
      var q := RightSpine(t.right);
      assert ([true] + q)[1..] == q;
      [true] + q
  }

  /** `insert(value:)` on a shape: the new leaf `n` goes left below values above `v`, otherwise right. */
  ghost function InsertInto(t: Tree, v: int, n: NodeId): Tree {
    match t
    case Nil => Branch(n, v, Nil, Nil)
    case Branch(id, x, l, r) =>
      if v < x then Branch(id, x, InsertInto(l, v, n), r) else Branch(id, x, l, InsertInto(r, v, n))
  }

  /** The node the new leaf is attached to, whose slot on that side is empty. */
  ghost function AttachPoint(t: Tree, v: int): (a: Tree)
    requires t.Branch?
    ensures a.Branch? && a.id in Ids(t)
    ensures if v < a.value then a.left.Nil? else a.right.Nil?
  {
    if v < t.value then (if t.left.Nil? then t else AttachPoint(t.left, v))
    else (if t.right.Nil? then t else AttachPoint(t.right, v))
  }

  ghost predicate HasTwoChildren(t: Tree) {
    t.Branch? && t.left.Branch? && t.right.Branch?
  }

  /** The in-order successor of a node with a right child: the leftmost node of its right subtree. */
  ghost function Successor(t: Tree): (s: Tree)
    requires t.Branch? && t.right.Branch?
    ensures s.Branch? && s.left.Nil?
  {
    SubtreeAt(t.right, LeftSpine(t.right))
  }

  /** The right subtree once the successor has been replaced by its own right child. */
  ghost function RightWithoutSuccessor(t: Tree): Tree
    requires t.Branch? && t.right.Branch?
  {
    ReplaceAt(t.right, LeftSpine(t.right), Successor(t).right)
  }

  /**
   * What `findReplacement()` (with the successor's own `remove()`) puts in
   * the place of node `t`, as written: nothing for a leaf, the only child
   * for one child, and otherwise the successor carrying `t`'s left subtree
   * and, unless the successor was `t`'s right child itself, `t`'s right
   * subtree without the successor. When it was the right child, its own
   * right subtree is dropped.
   */
  ghost function Replacement(t: Tree): Tree
    requires t.Branch?
  {
    if t.left.Nil? then t.right
    else if t.right.Nil? then t.left
    else
      var s := Successor(t);
      Branch(s.id, s.value, t.left, if t.right.left.Nil? then Nil else RightWithoutSuccessor(t))
  }

  /** The replacement with the successor's right subtree kept in every case. */
  ghost function FixedReplacement(t: Tree): Tree
    requires t.Branch?
  {
    if t.left.Nil? then t.right
    else if t.right.Nil? then t.left
    else
      var s := Successor(t);
      Branch(s.id, s.value, t.left, RightWithoutSuccessor(t))
  }

  /**
   * `remove(value:)` on a shape, as written: the found node's subtree is
   * replaced, except that a root with no children stays, because the tree
   * only moves `root` when there is a replacement.
   */
  ghost function RemoveAsWritten(t: Tree, v: int): Tree {
    match Find(t, v)
    case None => t
    case Some(p) =>
      var b := Replacement(SubtreeAt(t, p));
      if p == [] && b.Nil? then t else ReplaceAt(t, p, b)
  }

  /** `remove(value:)` with the three repairs: every removal takes exactly the found node out. */
  ghost function RemoveFixed(t: Tree, v: int): Tree {
    match Find(t, v)
    case None => t
    case Some(p) => ReplaceAt(t, p, FixedReplacement(SubtreeAt(t, p)))
  }

  /** A removal of `v` that finds a node with two children. */
  ghost predicate RemovesTwoChildNode(t: Tree, v: int) {
    Find(t, v).Some? && HasTwoChildren(SubtreeAt(t, Find(t, v).value))
  }

  /** `x` is the left child of some node of `t`. */
  ghost predicate LeftChildIn(t: Tree, x: NodeId) {
    match t
    case Nil => false
    case Branch(_, _, l, r) => (l.Branch? && l.id == x) || LeftChildIn(l, x) || LeftChildIn(r, x)
  }

  /** `x` is the right child of some node of `t`. */
  ghost predicate RightChildIn(t: Tree, x: NodeId) {
    match t
    case Nil => false
    case Branch(_, _, l, r) => (r.Branch? && r.id == x) || RightChildIn(l, x) || RightChildIn(r, x)
  }

  // ----- Paths -----

  lemma {:induction false} SubtreeAppend(t: Tree, p: Path, q: Path)
    requires InTree(t, p)
    ensures SubtreeAt(t, p + q) == SubtreeAt(SubtreeAt(t, p), q)
    ensures InTree(t, p + q) <==> InTree(SubtreeAt(t, p), q)
    decreases p
  {
    if p != [] {
      assert (p + q)[0] == p[0] && (p + q)[1..] == p[1..] + q;
      SubtreeAppend(Child(t, p[0]), p[1..], q);
    } else {
      assert p + q == q;
    }
  }

  lemma {:induction false} ReplaceAppend(t: Tree, p: Path, q: Path, z: Tree)
    requires InTree(t, p)
    ensures ReplaceAt(t, p + q, z) == ReplaceAt(t, p, ReplaceAt(SubtreeAt(t, p), q, z))
    decreases p
  {
    if p != [] {
      assert (p + q)[0] == p[0] && (p + q)[1..] == p[1..] + q;
      ReplaceAppend(Child(t, p[0]), p[1..], q, z);
    } else {
      assert p + q == q;
    }
  }

  lemma {:induction false} SubtreeReplaced(t: Tree, p: Path, s: Tree)
    requires InTree(t, p)
    ensures SubtreeAt(ReplaceAt(t, p, s), p) == s
    ensures InTree(ReplaceAt(t, p, s), p)
    decreases p
  {
    if p != [] {
      SubtreeReplaced(Child(t, p[0]), p[1..], s);
    }
  }

  lemma {:induction false} ReplaceTwice(t: Tree, p: Path, s: Tree, u: Tree)
    requires InTree(t, p)
    ensures ReplaceAt(ReplaceAt(t, p, s), p, u) == ReplaceAt(t, p, u)
    decreases p
  {
    if p != [] {
      ReplaceTwice(Child(t, p[0]), p[1..], s, u);
    }
  }

  /** Putting back the subtree that was there changes nothing. */
  lemma {:induction false} ReplaceSame(t: Tree, p: Path)
    requires InTree(t, p)
    ensures ReplaceAt(t, p, SubtreeAt(t, p)) == t
    decreases p
  {
    if p != [] {
      ReplaceSame(Child(t, p[0]), p[1..]);
    }
  }

  lemma {:induction false} SubtreeIsSmaller(t: Tree, p: Path)
    requires InTree(t, p) && p != []
    ensures Size(SubtreeAt(t, p)) < Size(t)
    decreases p
  {
    if p[1..] != [] {
      SubtreeIsSmaller(Child(t, p[0]), p[1..]);
    }
  }

  // ----- Contents -----

  /** The ids after replacing the subtree at `p` are those of the tree with a hole there plus those of the new subtree. */
  lemma {:induction false} ReplaceAtIds(t: Tree, p: Path, s: Tree)
    requires InTree(t, p)
    ensures Ids(ReplaceAt(t, p, s)) == Ids(ReplaceAt(t, p, Nil)) + Ids(s)
    decreases p
  {
    if p != [] {
      match t
      case Branch(id, x, l, r) =>
        if p[0] {
          ReplaceAtIds(r, p[1..], s);
          assert ReplaceAt(t, p, s) == Branch(id, x, l, ReplaceAt(r, p[1..], s));
          assert ReplaceAt(t, p, Nil) == Branch(id, x, l, ReplaceAt(r, p[1..], Nil));
        } else {
          ReplaceAtIds(l, p[1..], s);
          assert ReplaceAt(t, p, s) == Branch(id, x, ReplaceAt(l, p[1..], s), r);
          assert ReplaceAt(t, p, Nil) == Branch(id, x, ReplaceAt(l, p[1..], Nil), r);
        }
    }
  }

  /** The values after replacing the subtree at `p` are those of the tree with a hole there plus those of the new subtree. */
  lemma {:induction false} ReplaceAtValues(t: Tree, p: Path, s: Tree)
    requires InTree(t, p)
    ensures Values(ReplaceAt(t, p, s)) == Values(ReplaceAt(t, p, Nil)) + Values(s)
    decreases p
  {
    if p != [] {
      match t
      case Branch(id, x, l, r) =>
        if p[0] {
          ReplaceAtValues(r, p[1..], s);
          assert ReplaceAt(t, p, s) == Branch(id, x, l, ReplaceAt(r, p[1..], s));
          assert ReplaceAt(t, p, Nil) == Branch(id, x, l, ReplaceAt(r, p[1..], Nil));
        } else {
          ReplaceAtValues(l, p[1..], s);
          assert ReplaceAt(t, p, s) == Branch(id, x, ReplaceAt(l, p[1..], s), r);
          assert ReplaceAt(t, p, Nil) == Branch(id, x, ReplaceAt(l, p[1..], Nil), r);
        }
    }
  }

  /** A tree's ids are those around the hole at `p` plus those of the subtree there. */
  lemma HoleIds(t: Tree, p: Path)
    requires InTree(t, p)
    ensures Ids(t) == Ids(ReplaceAt(t, p, Nil)) + Ids(SubtreeAt(t, p))
  {
    ReplaceAtIds(t, p, SubtreeAt(t, p));
    ReplaceSame(t, p);
  }

  /** A tree's values are those around the hole at `p` plus those of the subtree there. */
  lemma HoleValues(t: Tree, p: Path)
    requires InTree(t, p)
    ensures Values(t) == Values(ReplaceAt(t, p, Nil)) + Values(SubtreeAt(t, p))
  {
    ReplaceAtValues(t, p, SubtreeAt(t, p));
    ReplaceSame(t, p);
  }

  /** In a tree without shared nodes, the subtree at `p` and the rest of the tree share none. */
  lemma {:induction false} UniqueApart(t: Tree, p: Path)
    requires InTree(t, p) && UniqueIds(t)
    ensures Ids(ReplaceAt(t, p, Nil)) !! Ids(SubtreeAt(t, p))
    ensures UniqueIds(SubtreeAt(t, p)) && UniqueIds(ReplaceAt(t, p, Nil))
    decreases p
  {
    if p != [] {
      match t
      case Branch(id, x, l, r) =>
        if p[0] {
          UniqueApart(r, p[1..]);
          HoleIds(r, p[1..]);
          assert ReplaceAt(t, p, Nil) == Branch(id, x, l, ReplaceAt(r, p[1..], Nil));
        } else {
          UniqueApart(l, p[1..]);
          HoleIds(l, p[1..]);
          assert ReplaceAt(t, p, Nil) == Branch(id, x, ReplaceAt(l, p[1..], Nil), r);
        }
    }
  }

  /** Plugging a tree without shared nodes into a hole it shares no node with gives a tree without shared nodes. */
  lemma {:induction false} UniquePlugged(t: Tree, p: Path, s: Tree)
    requires InTree(t, p) && UniqueIds(ReplaceAt(t, p, Nil)) && UniqueIds(s)
    requires Ids(ReplaceAt(t, p, Nil)) !! Ids(s)
    ensures UniqueIds(ReplaceAt(t, p, s))
    decreases p
  {
    if p != [] {
      match t
      case Branch(id, x, l, r) =>
        if p[0] {
          assert ReplaceAt(t, p, Nil) == Branch(id, x, l, ReplaceAt(r, p[1..], Nil));
          ReplaceAtIds(r, p[1..], s);
          UniquePlugged(r, p[1..], s);
          assert ReplaceAt(t, p, s) == Branch(id, x, l, ReplaceAt(r, p[1..], s));
        } else {
          assert ReplaceAt(t, p, Nil) == Branch(id, x, ReplaceAt(l, p[1..], Nil), r);
          ReplaceAtIds(l, p[1..], s);
          UniquePlugged(l, p[1..], s);
          assert ReplaceAt(t, p, s) == Branch(id, x, ReplaceAt(l, p[1..], s), r);
        }
    }
  }

  /** The node at a position is one of the tree's nodes, and its value one of the tree's values. */
  lemma SubtreeContents(t: Tree, p: Path)
    requires InTree(t, p)
    ensures Ids(SubtreeAt(t, p)) <= Ids(t)
    ensures Values(SubtreeAt(t, p)) <= Values(t)
    ensures SubtreeAt(t, p).Branch? ==> SubtreeAt(t, p).id in Ids(t) && SubtreeAt(t, p).value in Values(t)
  {
    HoleIds(t, p);
    HoleValues(t, p);
  }

  /** A value is stored in a node's subtree when it is the node's own or stored on either side. */
  lemma BranchValues(t: Tree)
    requires t.Branch?
    ensures forall y :: y in Values(t) <==> y in Values(t.left) || y == t.value || y in Values(t.right)
  {
  }

  // ----- Order -----

  /** `Below` says what it is named for. */
  lemma {:induction false} BelowMeans(t: Tree, v: int)
    ensures Below(t, v) ==> forall y :: y in Values(t) ==> y < v
    ensures (forall y :: y in Values(t) ==> y < v) ==> Below(t, v)
  {
    match t
    case Nil =>
    case Branch(_, x, l, r) =>
      BelowMeans(l, v);
      BelowMeans(r, v);
      BranchValues(t);
      if !Below(t, v) {
        if v <= x {
          assert x in Values(t);
        } else if !Below(l, v) {
          var y :| y in Values(l) && v <= y;
          assert y in Values(t);
        } else {
          var y :| y in Values(r) && v <= y;
          assert y in Values(t);
        }
      }
  }

  /** `AtLeast` says what it is named for. */
  lemma {:induction false} AtLeastMeans(t: Tree, v: int)
    ensures AtLeast(t, v) ==> forall y :: y in Values(t) ==> v <= y
    ensures (forall y :: y in Values(t) ==> v <= y) ==> AtLeast(t, v)
  {
    match t
    case Nil =>
    case Branch(_, x, l, r) =>
      AtLeastMeans(l, v);
      AtLeastMeans(r, v);
      BranchValues(t);
      if !AtLeast(t, v) {
        if x < v {
          assert x in Values(t);
        } else if !AtLeast(l, v) {
          var y :| y in Values(l) && y < v;
          assert y in Values(t);
        } else {
          var y :| y in Values(r) && y < v;
          assert y in Values(t);
        }
      }
  }

  lemma {:induction false} BelowWeaken(t: Tree, v: int, w: int)
    requires Below(t, v) && v <= w
    ensures Below(t, w)
  {
    match t
    case Nil =>
    case Branch(_, _, l, r) =>
      BelowWeaken(l, v, w);
      BelowWeaken(r, v, w);
  }

  lemma {:induction false} AtLeastWeaken(t: Tree, v: int, w: int)
    requires AtLeast(t, v) && w <= v
    ensures AtLeast(t, w)
  {
    match t
    case Nil =>
    case Branch(_, _, l, r) =>
      AtLeastWeaken(l, v, w);
      AtLeastWeaken(r, v, w);
  }

  lemma {:induction false} BelowSubtree(t: Tree, p: Path, v: int)
    requires InTree(t, p) && Below(t, v)
    ensures Below(SubtreeAt(t, p), v)
    decreases p
  {
    if p != [] {
      BelowSubtree(Child(t, p[0]), p[1..], v);
    }
  }

  lemma {:induction false} AtLeastSubtree(t: Tree, p: Path, v: int)
    requires InTree(t, p) && AtLeast(t, v)
    ensures AtLeast(SubtreeAt(t, p), v)
    decreases p
  {
    if p != [] {
      AtLeastSubtree(Child(t, p[0]), p[1..], v);
    }
  }

  lemma {:induction false} BelowPlugged(t: Tree, p: Path, s: Tree, v: int)
    requires InTree(t, p) && Below(t, v) && Below(s, v)
    ensures Below(ReplaceAt(t, p, s), v)
    decreases p
  {
    if p != [] {
      BelowPlugged(Child(t, p[0]), p[1..], s, v);
    }
  }

  lemma {:induction false} AtLeastPlugged(t: Tree, p: Path, s: Tree, v: int)
    requires InTree(t, p) && AtLeast(t, v) && AtLeast(s, v)
    ensures AtLeast(ReplaceAt(t, p, s), v)
    decreases p
  {
    if p != [] {
      AtLeastPlugged(Child(t, p[0]), p[1..], s, v);
    }
  }

  lemma {:induction false} OrderedSubtree(t: Tree, p: Path)
    requires InTree(t, p) && Ordered(t)
    ensures Ordered(SubtreeAt(t, p))
    decreases p
  {
    if p != [] {
      OrderedSubtree(Child(t, p[0]), p[1..]);
    }
  }

  /**
   * An ordered tree stays ordered when the subtree at `p` is replaced by an
   * ordered tree that keeps to every bound the old subtree kept to.
   */
  lemma {:induction false} OrderedPlugged(t: Tree, p: Path, s: Tree)
    requires InTree(t, p) && Ordered(t) && Ordered(s)
    requires forall v :: Below(SubtreeAt(t, p), v) ==> Below(s, v)
    requires forall v :: AtLeast(SubtreeAt(t, p), v) ==> AtLeast(s, v)
    ensures Ordered(ReplaceAt(t, p, s))
    decreases p
  {
    if p != [] {
      match t
      case Branch(id, x, l, r) =>
        if p[0] {
          assert SubtreeAt(t, p) == SubtreeAt(r, p[1..]);
          AtLeastSubtree(r, p[1..], x);
          AtLeastPlugged(r, p[1..], s, x);
          OrderedPlugged(r, p[1..], s);
          assert ReplaceAt(t, p, s) == Branch(id, x, l, ReplaceAt(r, p[1..], s));
        } else {
          assert SubtreeAt(t, p) == SubtreeAt(l, p[1..]);
          BelowSubtree(l, p[1..], x);
          BelowPlugged(l, p[1..], s, x);
          OrderedPlugged(l, p[1..], s);
          assert ReplaceAt(t, p, s) == Branch(id, x, ReplaceAt(l, p[1..], s), r);
        }
    }
  }

  // ----- Queries -----

  /** What `node(for: v)` finds holds `v`. */
  lemma FoundIsStored(t: Tree, v: int)
    ensures Find(t, v).Some? ==> v in Values(t)
  {
    if Find(t, v).Some? {
      SubtreeContents(t, Find(t, v).value);
    }
  }

  /** On an ordered tree, `node(for: v)` finds a node whenever `v` is stored. */
  lemma {:induction false} StoredIsFound(t: Tree, v: int)
    requires Ordered(t) && v in Values(t)
    ensures Find(t, v).Some?
  {
    match t
    case Branch(_, x, l, r) =>
      BranchValues(t);
      if v < x {
        AtLeastMeans(r, x);
        StoredIsFound(l, v);
      } else if v > x {
        BelowMeans(l, x);
        StoredIsFound(r, v);
      }
  }

  /** On an ordered tree, `node(for: v)` finds a node exactly when `v` is stored. */
  lemma FindIffStored(t: Tree, v: int)
    requires Ordered(t)
    ensures Find(t, v).Some? ==> v in Values(t)
    ensures v in Values(t) ==> Find(t, v).Some?
  {
    FoundIsStored(t, v);
    if v in Values(t) {
      StoredIsFound(t, v);
    }
  }

  /** The node `min()` reaches holds the least value of an ordered tree. */
  lemma {:induction false} LeftSpineIsLeast(t: Tree)
    requires t.Branch? && Ordered(t)
    ensures AtLeast(t, SubtreeAt(t, LeftSpine(t)).value)
    decreases t
  {
    if t.left.Branch? {
      var q := LeftSpine(t.left);
      assert ([false] + q)[1..] == q;
      var m := SubtreeAt(t.left, q).value;
      LeftSpineIsLeast(t.left);
      BelowSubtree(t.left, q, t.value);
      AtLeastWeaken(t.right, t.value, m);
    }
  }

  /** The node `max()` reaches holds the greatest value of an ordered tree. */
  lemma {:induction false} RightSpineIsGreatest(t: Tree)
    requires t.Branch? && Ordered(t)
    ensures Below(t, SubtreeAt(t, RightSpine(t)).value + 1)
    decreases t
  {
    var x := t.value;
    if t.right.Branch? {
      var q := RightSpine(t.right);
      assert ([true] + q)[1..] == q;
      var m := SubtreeAt(t.right, q).value;
      RightSpineIsGreatest(t.right);
      AtLeastSubtree(t.right, q, x);
      BelowWeaken(t.left, x, m + 1);
    } else {
      BelowWeaken(t.left, x, x + 1);
    }
  }

  /** `min()` in terms of the stored values. */
  lemma LeastValue(t: Tree)
    requires t.Branch? && Ordered(t)
    ensures SubtreeAt(t, LeftSpine(t)).value in Values(t)
    ensures forall y :: y in Values(t) ==> SubtreeAt(t, LeftSpine(t)).value <= y
  {
    SubtreeContents(t, LeftSpine(t));
    LeftSpineIsLeast(t);
    AtLeastMeans(t, SubtreeAt(t, LeftSpine(t)).value);
  }

  /** `max()` in terms of the stored values. */
  lemma GreatestValue(t: Tree)
    requires t.Branch? && Ordered(t)
    ensures SubtreeAt(t, RightSpine(t)).value in Values(t)
    ensures forall y :: y in Values(t) ==> y <= SubtreeAt(t, RightSpine(t)).value
  {
    SubtreeContents(t, RightSpine(t));
    RightSpineIsGreatest(t);
    BelowMeans(t, SubtreeAt(t, RightSpine(t)).value + 1);
  }

  /** Each traversal visits every node once: it lists exactly the stored values. */
  lemma {:induction false} InOrderValues(t: Tree)
    ensures multiset(InOrder(t)) == Values(t)
  {
    match t
    case Nil =>
    case Branch(_, v, l, r) =>
      InOrderValues(l);
      InOrderValues(r);
      assert InOrder(t) == InOrder(l) + [v] + InOrder(r);
  }

  lemma {:induction false} PreOrderValues(t: Tree)
    ensures multiset(PreOrder(t)) == Values(t)
  {
    match t
    case Nil =>
    case Branch(_, v, l, r) =>
      PreOrderValues(l);
      PreOrderValues(r);
      assert PreOrder(t) == [v] + PreOrder(l) + PreOrder(r);
  }

  lemma {:induction false} PostOrderValues(t: Tree)
    ensures multiset(PostOrder(t)) == Values(t)
  {
    match t
    case Nil =>
    case Branch(_, v, l, r) =>
      PostOrderValues(l);
      PostOrderValues(r);
      assert PostOrder(t) == PostOrder(l) + PostOrder(r) + [v];
  }

  lemma {:induction false} InOrderBelow(t: Tree, v: int)
    requires Below(t, v)
    ensures forall i :: 0 <= i < |InOrder(t)| ==> InOrder(t)[i] < v
  {
    match t
    case Nil =>
    case Branch(_, x, l, r) =>
      InOrderBelow(l, v);
      InOrderBelow(r, v);
  }

  lemma {:induction false} InOrderAtLeast(t: Tree, v: int)
    requires AtLeast(t, v)
    ensures forall i :: 0 <= i < |InOrder(t)| ==> v <= InOrder(t)[i]
  {
    match t
    case Nil =>
    case Branch(_, x, l, r) =>
      InOrderAtLeast(l, v);
      InOrderAtLeast(r, v);
  }

  /** Two ascending runs around a pivot that separates them make one run. */
  lemma AscendingJoin(a: seq<int>, v: int, b: seq<int>)
    requires Ascending(a) && Ascending(b)
    requires forall i :: 0 <= i < |a| ==> a[i] < v
    requires forall i :: 0 <= i < |b| ==> v <= b[i]
    ensures Ascending(a + [v] + b)
  {
    var s := a + [v] + b;
    forall i, j | 0 <= i < j < |s| ensures s[i] <= s[j] {
      if j < |a| {
        assert s[i] == a[i] && s[j] == a[j];
      } else if i > |a| {
        assert s[i] == b[i - |a| - 1] && s[j] == b[j - |a| - 1];
      } else if i < |a| {
        assert s[i] == a[i];
        if j > |a| {
          assert s[j] == b[j - |a| - 1];
        }
      } else if j > |a| {
        assert s[j] == b[j - |a| - 1];
      }
    }
  }

  /** The in-order traversal of an ordered tree is non-decreasing. */
  lemma {:induction false} InOrderAscending(t: Tree)
    requires Ordered(t)
    ensures Ascending(InOrder(t))
  {
    match t
    case Nil =>
    case Branch(_, v, l, r) =>
      InOrderAscending(l);
      InOrderAscending(r);
      InOrderBelow(l, v);
      InOrderAtLeast(r, v);
      AscendingJoin(InOrder(l), v, InOrder(r));
  }

  // ----- Insertion -----

  /** Insertion adds exactly the new value. */
  lemma {:induction false} InsertValues(t: Tree, v: int, n: NodeId)
    ensures Values(InsertInto(t, v, n)) == Values(t) + multiset{v}
  {
    match t
    case Nil =>
    case Branch(id, x, l, r) =>
      InsertValues(l, v, n);
      InsertValues(r, v, n);
  }

  /** Insertion adds exactly the new node. */
  lemma {:induction false} InsertIds(t: Tree, v: int, n: NodeId)
    ensures Ids(InsertInto(t, v, n)) == Ids(t) + {n}
  {
    match t
    case Nil =>
    case Branch(id, x, l, r) =>
      InsertIds(l, v, n);
      InsertIds(r, v, n);
  }

  /** A fresh node keeps the node ids apart. */
  lemma {:induction false} InsertUnique(t: Tree, v: int, n: NodeId)
    requires UniqueIds(t) && n !in Ids(t)
    ensures UniqueIds(InsertInto(t, v, n))
  {
    match t
    case Nil =>
    case Branch(id, x, l, r) =>
      if v < x {
        InsertIds(l, v, n);
        InsertUnique(l, v, n);
      } else {
        InsertIds(r, v, n);
        InsertUnique(r, v, n);
      }
  }

  lemma {:induction false} InsertBelow(t: Tree, v: int, n: NodeId, w: int)
    requires Below(t, w) && v < w
    ensures Below(InsertInto(t, v, n), w)
  {
    match t
    case Nil =>
    case Branch(id, x, l, r) =>
      InsertBelow(l, v, n, w);
      InsertBelow(r, v, n, w);
  }

  lemma {:induction false} InsertAtLeast(t: Tree, v: int, n: NodeId, w: int)
    requires AtLeast(t, w) && w <= v
    ensures AtLeast(InsertInto(t, v, n), w)
  {
    match t
    case Nil =>
    case Branch(id, x, l, r) =>
      InsertAtLeast(l, v, n, w);
      InsertAtLeast(r, v, n, w);
  }

  /** Insertion keeps the order. */
  lemma {:induction false} InsertOrdered(t: Tree, v: int, n: NodeId)
    requires Ordered(t)
    ensures Ordered(InsertInto(t, v, n))
  {
    match t
    case Nil =>
    case Branch(id, x, l, r) =>
      if v < x {
        InsertBelow(l, v, n, x);
        InsertOrdered(l, v, n);
      } else {
        InsertAtLeast(r, v, n, x);
        InsertOrdered(r, v, n);
      }
  }

  // ----- Removal -----

  /** The right subtree without its successor lost exactly the successor's value. */
  lemma RestValues(t: Tree)
    requires t.Branch? && t.right.Branch?
    ensures Values(RightWithoutSuccessor(t)) + multiset{Successor(t).value} == Values(t.right)
  {
    var q := LeftSpine(t.right);
    var s := Successor(t);
    ReplaceAtValues(t.right, q, s.right);
    HoleValues(t.right, q);
    assert Values(s) == multiset{s.value} + Values(s.right);
  }

  /** ... and exactly the successor's node, which it no longer shares with anything. */
  lemma RestIds(t: Tree)
    requires t.Branch? && t.right.Branch? && UniqueIds(t.right)
    ensures Successor(t).id in Ids(t.right)
    ensures Ids(RightWithoutSuccessor(t)) <= Ids(t.right) - {Successor(t).id}
    ensures UniqueIds(RightWithoutSuccessor(t))
  {
    var q := LeftSpine(t.right);
    var s := Successor(t);
    ReplaceAtIds(t.right, q, s.right);
    HoleIds(t.right, q);
    UniqueApart(t.right, q);
    UniquePlugged(t.right, q, s.right);
  }

  /** ... and stays ordered, with the successor's value below all of it. */
  lemma RestOrder(t: Tree)
    requires t.Branch? && t.right.Branch? && Ordered(t)
    ensures t.value <= Successor(t).value
    ensures Ordered(RightWithoutSuccessor(t)) && AtLeast(RightWithoutSuccessor(t), Successor(t).value)
  {
    var q := LeftSpine(t.right);
    var s := Successor(t);
    AtLeastSubtree(t.right, q, t.value);
    LeftSpineIsLeast(t.right);
    AtLeastSubtree(t.right, q, s.value);
    AtLeastPlugged(t.right, q, s.right, s.value);
    OrderedSubtree(t.right, q);
    OrderedPlugged(t.right, q, s.right);
  }

  /** ... and keeps every bound the right subtree kept. */
  lemma RestBounds(t: Tree, v: int)
    requires t.Branch? && t.right.Branch?
    ensures Below(t.right, v) ==> Below(RightWithoutSuccessor(t), v) && Successor(t).value < v
    ensures AtLeast(t.right, v) ==> AtLeast(RightWithoutSuccessor(t), v)
  {
    var q := LeftSpine(t.right);
    var s := Successor(t);
    if Below(t.right, v) {
      BelowSubtree(t.right, q, v);
      BelowPlugged(t.right, q, s.right, v);
    }
    if AtLeast(t.right, v) {
      AtLeastSubtree(t.right, q, v);
      AtLeastPlugged(t.right, q, s.right, v);
    }
  }

  /** Multiset arithmetic: what is left once one `v` is added back to it is the whole minus that `v`. */
  lemma TakenOut(rest: multiset<int>, v: int, whole: multiset<int>)
    requires rest + multiset{v} == whole
    ensures rest == whole - multiset{v}
  {
  }

  /** The repaired replacement holds the node's values without the node's own one. */
  lemma FixedReplacementValues(t: Tree)
    requires t.Branch?
    ensures Values(FixedReplacement(t)) + multiset{t.value} == Values(t)
  {
    if HasTwoChildren(t) {
      RestValues(t);
    }
  }

  /** The repaired replacement uses only the node's descendants, each once. */
  lemma FixedReplacementIds(t: Tree)
    requires t.Branch? && UniqueIds(t)
    ensures Ids(FixedReplacement(t)) <= Ids(t) - {t.id}
    ensures UniqueIds(FixedReplacement(t))
  {
    if HasTwoChildren(t) {
      RestIds(t);
    }
  }

  /** The repaired replacement of a node of an ordered tree is ordered. */
  lemma FixedReplacementOrdered(t: Tree)
    requires t.Branch? && Ordered(t)
    ensures Ordered(FixedReplacement(t))
  {
    if HasTwoChildren(t) {
      RestOrder(t);
      BelowWeaken(t.left, t.value, Successor(t).value);
    }
  }

  /** The repaired replacement keeps every bound the node's subtree kept. */
  lemma FixedReplacementBounds(t: Tree, v: int)
    requires t.Branch?
    ensures Below(t, v) ==> Below(FixedReplacement(t), v)
    ensures AtLeast(t, v) ==> AtLeast(FixedReplacement(t), v)
  {
    if HasTwoChildren(t) {
      RestBounds(t, v);
      if AtLeast(t, v) {
        AtLeastSubtree(t.right, LeftSpine(t.right), v);
      }
    }
  }

  /** The replacement as written differs from the repaired one only when the successor is the right child. */
  lemma ReplacementAsWritten(t: Tree)
    requires t.Branch?
    ensures !(HasTwoChildren(t) && t.right.left.Nil?) ==> Replacement(t) == FixedReplacement(t)
    ensures HasTwoChildren(t) && t.right.left.Nil? ==>
      && Replacement(t) == Branch(t.right.id, t.right.value, t.left, Nil)
      && FixedReplacement(t) == Branch(t.right.id, t.right.value, t.left, t.right.right)
  {
  }

  /** The case the replacement as written gets wrong: two children, and the successor is the right child itself. */
  ghost predicate DropsSubtree(t: Tree) {
    HasTwoChildren(t) && t.right.left.Nil?
  }

  /** As written, the replacement misses the node's value and, in the `DropsSubtree` case, the successor's right subtree. */
  lemma ReplacementValues(t: Tree)
    requires t.Branch?
    ensures !DropsSubtree(t) ==> Values(Replacement(t)) + multiset{t.value} == Values(t)
    ensures DropsSubtree(t) ==> Values(Replacement(t)) + Values(t.right.right) + multiset{t.value} == Values(t)
  {
    if DropsSubtree(t) {
      DroppedValues(t);
    } else if HasTwoChildren(t) {
      assert Replacement(t) == FixedReplacement(t);
      FixedReplacementValues(t);
    }
  }

  lemma DroppedValues(t: Tree)
    requires t.Branch? && DropsSubtree(t)
    ensures Values(Replacement(t)) + Values(t.right.right) + multiset{t.value} == Values(t)
  {
    var r := t.right;
    assert Successor(t) == r;
    assert Replacement(t) == Branch(r.id, r.value, t.left, Nil);
    assert Values(r) == multiset{r.value} + Values(r.right);
  }

  /** The replacement as written uses only the node's descendants, each once. */
  lemma ReplacementIds(t: Tree)
    requires t.Branch? && UniqueIds(t)
    ensures Ids(Replacement(t)) <= Ids(t) - {t.id} && UniqueIds(Replacement(t))
  {
    ReplacementAsWritten(t);
    FixedReplacementIds(t);
  }

  /** The replacement as written of a node of an ordered tree is ordered. */
  lemma ReplacementOrdered(t: Tree)
    requires t.Branch? && Ordered(t)
    ensures Ordered(Replacement(t))
  {
    ReplacementAsWritten(t);
    FixedReplacementOrdered(t);
  }

  /** The replacement as written keeps every bound the node's subtree kept. */
  lemma ReplacementBounds(t: Tree, v: int)
    requires t.Branch?
    ensures Below(t, v) ==> Below(Replacement(t), v)
    ensures AtLeast(t, v) ==> AtLeast(Replacement(t), v)
  {
    ReplacementAsWritten(t);
    FixedReplacementBounds(t, v);
  }

  /**
   * What every removal relies on: plugging into the found node's place a
   * tree of its descendants that keeps its bounds keeps the whole tree
   * ordered and free of shared nodes.
   */
  lemma RemovalPlug(t: Tree, p: Path, f: Tree)
    requires InTree(t, p) && UniqueIds(t) && Ordered(t)
    requires UniqueIds(f) && Ordered(f) && Ids(f) <= Ids(SubtreeAt(t, p))
    requires forall v :: Below(SubtreeAt(t, p), v) ==> Below(f, v)
    requires forall v :: AtLeast(SubtreeAt(t, p), v) ==> AtLeast(f, v)
    ensures UniqueIds(ReplaceAt(t, p, f)) && Ordered(ReplaceAt(t, p, f))
    ensures Ids(ReplaceAt(t, p, f)) <= Ids(t)
    ensures Values(ReplaceAt(t, p, f)) == Values(ReplaceAt(t, p, Nil)) + Values(f)
    ensures Values(t) == Values(ReplaceAt(t, p, Nil)) + Values(SubtreeAt(t, p))
  {
    UniqueApart(t, p);
    ReplaceAtIds(t, p, f);
    HoleIds(t, p);
    UniquePlugged(t, p, f);
    OrderedPlugged(t, p, f);
    ReplaceAtValues(t, p, f);
    HoleValues(t, p);
  }

  /** Taking the node with value `v` at `p` out: when its replacement holds its other values, the tree loses one `v`. */
  lemma RemoveAtValues(t: Tree, p: Path, f: Tree, v: int)
    requires InTree(t, p) && SubtreeAt(t, p).Branch? && SubtreeAt(t, p).value == v
    requires Values(f) + multiset{v} == Values(SubtreeAt(t, p))
    ensures Values(ReplaceAt(t, p, f)) + multiset{v} == Values(t)
  {
    ReplaceAtValues(t, p, f);
    HoleValues(t, p);
  }

  /** The same when the replacement misses `extra` too: the tree loses one `v` and `extra`. */
  lemma RemoveAtValuesLosing(t: Tree, p: Path, f: Tree, v: int, extra: multiset<int>)
    requires InTree(t, p) && SubtreeAt(t, p).Branch? && SubtreeAt(t, p).value == v
    requires Values(f) + extra + multiset{v} == Values(SubtreeAt(t, p))
    ensures Values(ReplaceAt(t, p, f)) + extra + multiset{v} == Values(t)
  {
    ReplaceAtValues(t, p, f);
    HoleValues(t, p);
  }

  /** Putting the repaired replacement in the place of the node at `p` keeps the order and the node ids apart. */
  lemma ReplacedFixed(t: Tree, p: Path)
    requires InTree(t, p) && SubtreeAt(t, p).Branch? && UniqueIds(t) && Ordered(t)
    ensures Ordered(ReplaceAt(t, p, FixedReplacement(SubtreeAt(t, p))))
    ensures UniqueIds(ReplaceAt(t, p, FixedReplacement(SubtreeAt(t, p))))
    ensures Ids(ReplaceAt(t, p, FixedReplacement(SubtreeAt(t, p)))) <= Ids(t)
  {
    var b := SubtreeAt(t, p);
    var f := FixedReplacement(b);
    UniqueApart(t, p);
    OrderedSubtree(t, p);
    FixedReplacementIds(b);
    FixedReplacementOrdered(b);
    forall w | Below(b, w) ensures Below(f, w) {
      FixedReplacementBounds(b, w);
    }
    forall w | AtLeast(b, w) ensures AtLeast(f, w) {
      FixedReplacementBounds(b, w);
    }
    RemovalPlug(t, p, f);
  }

  /** Removing with the repaired remove keeps the order and the node ids apart. */
  lemma RemoveFixedShape(t: Tree, v: int)
    requires UniqueIds(t) && Ordered(t)
    ensures Ordered(RemoveFixed(t, v)) && UniqueIds(RemoveFixed(t, v))
    ensures Ids(RemoveFixed(t, v)) <= Ids(t)
  {
    match Find(t, v)
    case None =>
    case Some(p) =>
      ReplacedFixed(t, p);
  }

  /** Removing with the repaired remove takes out one occurrence of `v`, if there is one. */
  lemma RemoveFixedValues(t: Tree, v: int)
    requires Ordered(t)
    ensures Values(RemoveFixed(t, v)) == Values(t) - multiset{v}
  {
    FindIffStored(t, v);
    match Find(t, v)
    case None =>
    case Some(p) =>
      var b := SubtreeAt(t, p);
      FixedReplacementValues(b);
      RemoveAtValues(t, p, FixedReplacement(b), v);
      TakenOut(Values(RemoveFixed(t, v)), v, Values(t));
  }

  /** Putting the replacement as written in the place of the node at `p` keeps the order and the node ids apart. */
  lemma ReplacedAsWritten(t: Tree, p: Path)
    requires InTree(t, p) && SubtreeAt(t, p).Branch? && UniqueIds(t) && Ordered(t)
    ensures Ordered(ReplaceAt(t, p, Replacement(SubtreeAt(t, p))))
    ensures UniqueIds(ReplaceAt(t, p, Replacement(SubtreeAt(t, p))))
    ensures Ids(ReplaceAt(t, p, Replacement(SubtreeAt(t, p)))) <= Ids(t)
  {
    var b := SubtreeAt(t, p);
    var f := Replacement(b);
    UniqueApart(t, p);
    OrderedSubtree(t, p);
    ReplacementIds(b);
    ReplacementOrdered(b);
    forall w | Below(b, w) ensures Below(f, w) {
      ReplacementBounds(b, w);
    }
    forall w | AtLeast(b, w) ensures AtLeast(f, w) {
      ReplacementBounds(b, w);
    }
    RemovalPlug(t, p, f);
  }

  /** Removal as written keeps the order and the node ids apart. */
  lemma RemoveAsWrittenShape(t: Tree, v: int)
    requires UniqueIds(t) && Ordered(t)
    ensures Ordered(RemoveAsWritten(t, v)) && UniqueIds(RemoveAsWritten(t, v))
    ensures Ids(RemoveAsWritten(t, v)) <= Ids(t)
  {
    match Find(t, v)
    case None =>
    case Some(p) =>
      ReplacedAsWritten(t, p);
  }

  /**
   * Removal as written loses one occurrence of a stored `v` and, in the
   * `DropsSubtree` case, the successor's right subtree; removing the value
   * of a root without children changes nothing.
   */
  lemma RemoveAsWrittenValues(t: Tree, v: int)
    ensures Find(t, v).None? ==> RemoveAsWritten(t, v) == t
    ensures Find(t, v).Some? ==>
      var b := SubtreeAt(t, Find(t, v).value);
      if Find(t, v).value == [] && b.left.Nil? && b.right.Nil? then RemoveAsWritten(t, v) == t
      else if DropsSubtree(b) then Values(RemoveAsWritten(t, v)) + Values(b.right.right) == Values(t) - multiset{v}
      else Values(RemoveAsWritten(t, v)) == Values(t) - multiset{v}
  {
    match Find(t, v)
    case None =>
    case Some(p) =>
      var b := SubtreeAt(t, p);
      if p == [] && b.left.Nil? && b.right.Nil? {
      } else if DropsSubtree(b) {
        RemovedDropping(t, p, v);
      } else {
        ReplacementValues(b);
        RemoveAtValues(t, p, Replacement(b), v);
        TakenOut(Values(ReplaceAt(t, p, Replacement(b))), v, Values(t));
      }
  }

  /** The `DropsSubtree` case of removal as written, at the found position. */
  lemma RemovedDropping(t: Tree, p: Path, v: int)
    requires InTree(t, p) && SubtreeAt(t, p).Branch? && SubtreeAt(t, p).value == v && DropsSubtree(SubtreeAt(t, p))
    ensures
      var b := SubtreeAt(t, p);
      Values(ReplaceAt(t, p, Replacement(b))) + Values(b.right.right) == Values(t) - multiset{v}
  {
    var b := SubtreeAt(t, p);
    ReplacementValues(b);
    RemoveAtValuesLosing(t, p, Replacement(b), v, Values(b.right.right));
    TakenOut(Values(ReplaceAt(t, p, Replacement(b))) + Values(b.right.right), v, Values(t));
  }

  // ----- Where removal works -----

  /** What the successor's own `remove()` leaves in the node's place: the node, with the successor taken out of its right subtree. */
  ghost function Pruned(t: Tree): Tree
    requires t.Branch?
  {
    if HasTwoChildren(t) then Branch(t.id, t.value, t.left, RightWithoutSuccessor(t)) else t
  }

  /** Where `right.min()` sits in the whole tree, and what removing it there leaves. */
  lemma SuccessorPosition(t: Tree, p: Path)
    requires InTree(t, p) && HasTwoChildren(SubtreeAt(t, p))
    ensures
      var b := SubtreeAt(t, p);
      var q := p + [true] + LeftSpine(b.right);
      && InTree(t, q) && SubtreeAt(t, q) == Successor(b)
      && ReplaceAt(t, q, Successor(b).right) == ReplaceAt(t, p, Pruned(b))
      && Size(Successor(b)) < Size(b)
  {
    var b := SubtreeAt(t, p);
    var s := LeftSpine(b.right);
    assert p + [true] + s == p + ([true] + s);
    assert ([true] + s)[0] && ([true] + s)[1..] == s;
    SubtreeAppend(t, p, [true] + s);
    ReplaceAppend(t, p, [true] + s, Successor(b).right);
    SubtreeIsSmaller(b, [true] + s);
  }

  /** The successor is the right child itself exactly when the right child has no left child. */
  lemma SuccessorIsRight(t: Tree)
    requires t.Branch? && t.right.Branch? && UniqueIds(t.right)
    ensures Successor(t).id == t.right.id <==> t.right.left.Nil?
  {
    var q := LeftSpine(t.right);
    if q != [] {
      RootOnlyAtTop(t.right, q);
    }
  }

  /** In a tree without shared nodes, the root is found at the empty path only. */
  lemma RootOnlyAtTop(t: Tree, p: Path)
    requires InTree(t, p) && p != [] && SubtreeAt(t, p).Branch? && UniqueIds(t)
    ensures SubtreeAt(t, p).id != t.id
  {
    UniqueApart(t, p);
    assert t.id in Ids(ReplaceAt(t, p, Nil));
  }

  /** The position of node `x`. */
  ghost function PathOf(t: Tree, x: NodeId): (p: Path)
    requires x in Ids(t)
    ensures InTree(t, p) && SubtreeAt(t, p).Branch? && SubtreeAt(t, p).id == x
  {
    match t
    case Branch(id, _, l, r) =>
      if id == x then []
      else if x in Ids(l) then
        var q := PathOf(l, x);
        assert ([false] + q)[1..] == q;
        [false] + q
      else
        var q := PathOf(r, x);
        assert ([true] + q)[1..] == q;
        [true] + q
  }

  lemma {:induction false} ChildOfSome(t: Tree, x: NodeId)
    ensures LeftChildIn(t, x) || RightChildIn(t, x) ==> t.Branch? && x in Ids(t.left) + Ids(t.right)
  {
    match t
    case Nil =>
    case Branch(_, _, l, r) =>
      ChildOfSome(l, x);
      ChildOfSome(r, x);
  }

  /**
   * In a tree without shared nodes, `x` is a left child exactly when its
   * position ends with a left turn, and a right child exactly when it ends
   * with a right turn.
   */
  lemma {:induction false} ChildByPath(t: Tree, x: NodeId)
    requires UniqueIds(t) && x in Ids(t)
    ensures LeftChildIn(t, x) <==> PathOf(t, x) != [] && !Last(PathOf(t, x))
    ensures RightChildIn(t, x) <==> PathOf(t, x) != [] && Last(PathOf(t, x))
  {
    match t
    case Branch(id, _, l, r) =>
      ChildOfSome(l, x);
      ChildOfSome(r, x);
      if id == x {
      } else if x in Ids(l) {
        var q := PathOf(l, x);
        ChildByPath(l, x);
        if q != [] {
          assert Last([false] + q) == Last(q);
          RootOnlyAtTop(l, q);
        }
      } else {
        var q := PathOf(r, x);
        ChildByPath(r, x);
        if q != [] {
          assert Last([true] + q) == Last(q);
          RootOnlyAtTop(r, q);
        }
      }
  }

  /** Once taken out of its place the successor is nowhere in the tree. */
  lemma SuccessorGone(t: Tree, p: Path)
    requires InTree(t, p) && HasTwoChildren(SubtreeAt(t, p)) && UniqueIds(t)
    ensures Successor(SubtreeAt(t, p)).id !in Ids(ReplaceAt(t, p, Pruned(SubtreeAt(t, p))))
  {
    var b := SubtreeAt(t, p);
    SuccessorPosition(t, p);
    var q := p + [true] + LeftSpine(b.right);
    UniqueApart(t, q);
    ReplaceAtIds(t, q, Successor(b).right);
  }

  /** The successor is neither the node itself nor its left child, and the two children differ. */
  lemma SuccessorApart(t: Tree)
    requires HasTwoChildren(t) && UniqueIds(t)
    ensures Successor(t).id != t.id && Successor(t).id != t.left.id && t.left.id != t.id
  {
    SubtreeContents(t.right, LeftSpine(t.right));
  }
}

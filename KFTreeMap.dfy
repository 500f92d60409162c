/**
 * KFTreeMap.swift: `KFTreeNode`, a node of a keyed tree, and `KFTreeMap`, a forest of such
 * trees together with the set of every key in it.
 *
 * A tree node is a `RootedTree.Node` value whose element is the key. Its `parent` link is
 * `linked`: a tree's root has none, and every node below it links to the node above. Keys are
 * objects compared by identity (`===`), which is `==` on `K` here. A `KFTreeMap` keeps the
 * nodes of its trees in `trees` and puts a node back into its tree when it changes it.
 */
module KFTreeMap {
  import opened Wrappers
  import opened RootedTree
  import SeqSearch
  import KFTreePath

  // ----- KFTreeNode -----

  /**
   * `indexOf(node)` on an array of tree nodes. `==` on tree nodes compares their keys, so
   * this is the first node holding `key`.
   */
  function IndexOfKey<K(==)>(cs: seq<Node<K>>, key: K): (r: Option<nat>)
    ensures r.None? <==> forall i :: 0 <= i < |cs| ==> cs[i].element != key
    ensures r.Some? ==> r.value < |cs| && cs[r.value].element == key
    ensures r.Some? ==> forall i :: 0 <= i < r.value ==> cs[i].element != key
    decreases |cs|
  {
    if cs == [] then None
    else if cs[0].element == key then Some(0)
    else match IndexOfKey(cs[1..], key)
      case Some(i) => Some(i + 1)
      case None => None
  }

  /** `addChild(_:)`: the leaf becomes the last child. */
  function AddChild<K>(n: Node<K>, leaf: Node<K>): (r: Node<K>)
    ensures r.element == n.element && r.linked == n.linked
    ensures |r.children| == |n.children| + 1 && r.children[..|n.children|] == n.children
    ensures r.children[|n.children|] == leaf
    ensures Elements(r) == Elements(n) + Elements(leaf)
  {
    var r := n.(children := n.children + [leaf]);
    ElementsOfAppend(n.children, [leaf]);
    assert [leaf][1..] == [];
    assert r.children[..|n.children|] == n.children;
    r
  }

  /**
   * `removeChild(_:)`: only a leaf is removed, and then the first child with its key goes.
   * The result is the changed node and whether anything was removed.
   */
  function RemoveChild<K(==)>(n: Node<K>, leaf: Node<K>): (r: (Node<K>, bool))
    ensures r.1 <==> IsLeaf(leaf) && exists i :: 0 <= i < |n.children| && n.children[i].element == leaf.element
    ensures !r.1 ==> r.0 == n
    ensures r.1 ==> IndexOfKey(n.children, leaf.element).Some?
    ensures r.1 ==> (var i := IndexOfKey(n.children, leaf.element).value;
      r.0.element == n.element && r.0.linked == n.linked &&
      r.0.children == SeqSearch.RemoveAt(n.children, i) &&
      Elements(n) == Elements(r.0) + Elements(n.children[i]))
  {
    if IsLeaf(leaf) then
      match IndexOfKey(n.children, leaf.element)
      case Some(i) =>
        ElementsRemoveAt(n.children, i);
        (n.(children := SeqSearch.RemoveAt(n.children, i)), true)
      case None => (n, false)
    else (n, false)
  }

  /** Taking out the child at `i` takes out exactly its elements. */
  lemma ElementsRemoveAt<K>(cs: seq<Node<K>>, i: nat)
    requires i < |cs|
    ensures ElementsOf(cs) == ElementsOf(SeqSearch.RemoveAt(cs, i)) + Elements(cs[i])
  {
    ElementsOfSplit(cs, i);
    ElementsOfAppend(cs[..i], cs[i + 1..]);
    assert SeqSearch.RemoveAt(cs, i) == cs[..i] + cs[i + 1..];
  }

  /** `contains(_:)` on a tree node: `findNode` finds it exactly when the subtree holds the key. */
  function Contains<K(==)>(n: Node<K>, key: K): (b: bool)
    ensures b <==> key in Elements(n)
  {
    FindIffIn(n, key);
    Find(n, key).Some?
  }

  /**
   * `count` on a tree node as written: `total` starts at 0 and only ever adds the children's
   * counts, so every node counts 0.
   */
  method CountAsWritten<K>(n: Node<K>) returns (total: int)
    ensures total == 0
    decreases n
  {
    total := 0;
    for i := 0 to |n.children|
      invariant total == 0
    {
      var c := CountAsWritten(n.children[i]);
      total := total + c;
    }
  }

  /** `count` counting the node itself and everything below it. */
  method CountFixed<K>(n: Node<K>) returns (total: nat)
    ensures total == |Elements(n)|
    decreases n
  {
    total := 1;
    for i := 0 to |n.children|
      invariant total == 1 + |ElementsOf(n.children[..i])|
    {
      var c := CountFixed(n.children[i]);
      total := total + c;
      ElementsOfAppend(n.children[..i], [n.children[i]]);
      assert n.children[..i + 1] == n.children[..i] + [n.children[i]];
      assert [n.children[i]][1..] == [];
    }
    assert n.children[..|n.children|] == n.children;
  }

  /** A root with one child: two nodes, which `count` as written does not see. */
  method CountFinding() returns (asWritten: int, fixed: nat)
    ensures asWritten == 0 && fixed == 2
  {
    var tree := Node(1, false, [Node(2, true, [])]);
    assert Elements(tree) == multiset{1, 2} by {
      assert tree.children[1..] == [];
    }
    asWritten := CountAsWritten(tree);
    fixed := CountFixed(tree);
  }

  // ----- A forest of trees -----

  /** Every tree is a root, with every `parent` link below it in place. */
  ghost predicate Forest<K>(trees: seq<Node<K>>) {
    forall i :: 0 <= i < |trees| ==> !trees[i].linked && Consistent(trees[i])
  }

  /** `findNode(key)` on the map, from the `i`th tree on: the tree and the path to the node. */
  function FindInForest<K(==)>(trees: seq<Node<K>>, key: K, i: nat): (r: Option<(nat, Path)>)
    requires i <= |trees|
    ensures r.Some? ==> i <= r.value.0 < |trees| && Find(trees[r.value.0], key) == Some(r.value.1)
    ensures r.Some? ==> forall j :: i <= j < r.value.0 ==> Find(trees[j], key).None?
    ensures r.None? ==> forall j :: i <= j < |trees| ==> Find(trees[j], key).None?
    decreases |trees| - i
  {
    if i == |trees| then None
    else match Find(trees[i], key)
      case Some(p) => Some((i, p))
      case None => FindInForest(trees, key, i + 1)
  }

  /** The search finds a node exactly when some tree holds the key. */
  lemma ForestFindIffIn<K>(trees: seq<Node<K>>, key: K)
    ensures FindInForest(trees, key, 0).Some? <==> key in ElementsOf(trees)
  {
    var f := FindInForest(trees, key, 0);
    if f.Some? {
      FindIffIn(trees[f.value.0], key);
      ElementsOfChild(trees, f.value.0);
    } else if key in ElementsOf(trees) {
      var i := ElementsOfSome(trees, key);
      FindIffIn(trees[i], key);
      assert false;
    }
  }

  /** The forest after `growBranch`: the node at `p` in tree `i` gets a new leaf holding `key`. */
  ghost function Grown<K>(trees: seq<Node<K>>, i: nat, p: Path, key: K): seq<Node<K>>
    requires i < |trees| && ValidPath(trees[i], p)
  {
    trees[i := Put(trees[i], p, AddChild(At(trees[i], p), Node(key, true, [])))]
  }

  /**
   * The forest after `removeKey`: the node at `p` in tree `i` taken out of its parent's
   * children, or tree `i` taken out of the forest when `p` is its root.
   */
  ghost function Removed<K>(trees: seq<Node<K>>, i: nat, p: Path): seq<Node<K>>
    requires i < |trees| && ValidPath(trees[i], p)
  {
    if p == [] then SeqSearch.RemoveAt(trees, i)
    else
      var parent := Above(trees[i], p);
      trees[i := Put(trees[i], Init(p), parent.(children := SeqSearch.RemoveAt(parent.children, Last(p))))]
  }

  /** Replacing tree `i` by `t` trades the elements of the two. */
  lemma ForestUpdate<K>(trees: seq<Node<K>>, i: nat, t: Node<K>, m: multiset<K>)
    requires i < |trees| && Elements(t) == Elements(trees[i]) + m
    ensures ElementsOf(trees[i := t]) == ElementsOf(trees) + m
  {
    ElementsOfUpdate(trees, i, t);
    Rebalance(ElementsOf(trees[i := t]), Elements(trees[i]), ElementsOf(trees), Elements(t), m);
  }

  /** `growBranch` adds exactly the new key. */
  lemma GrowElements<K>(trees: seq<Node<K>>, i: nat, p: Path, key: K)
    requires i < |trees| && ValidPath(trees[i], p)
    ensures ElementsOf(Grown(trees, i, p, key)) == ElementsOf(trees) + multiset{key}
  {
    var t, leaf := trees[i], Node(key, true, []);
    var n' := AddChild(At(t, p), leaf);
    assert Elements(leaf) == multiset{key};
    ElementsGrow(t, p, n', multiset{key});
    ForestUpdate(trees, i, Put(t, p, n'), multiset{key});
  }

  /** `growBranch` keeps every tree rooted, with every `parent` link below it in place. */
  lemma GrowForest<K>(trees: seq<Node<K>>, i: nat, p: Path, key: K)
    requires i < |trees| && ValidPath(trees[i], p) && Forest(trees)
    ensures Forest(Grown(trees, i, p, key))
  {
    var t := trees[i];
    var n := At(t, p);
    var n' := AddChild(n, Node(key, true, []));
    ConsistentAt(t, p);
    assert Consistent(n') by {
      forall j | 0 <= j < |n'.children|
        ensures n'.children[j].linked && Consistent(n'.children[j])
      {
        if j < |n.children| {
          assert n'.children[j] == n'.children[..|n.children|][j];
        }
      }
    }
    PutConsistent(t, p, n');
    PutTop(t, p, n');
  }

  /** After `growBranch` the branch keeps its key and the new leaf is its last child. */
  lemma GrowPlaces<K>(trees: seq<Node<K>>, i: nat, p: Path, key: K)
    requires i < |trees| && ValidPath(trees[i], p)
    ensures ValidPath(Grown(trees, i, p, key)[i], p) &&
      At(Grown(trees, i, p, key)[i], p).element == At(trees[i], p).element
    ensures var k := |At(trees[i], p).children|;
      ValidPath(Grown(trees, i, p, key)[i], p + [k]) &&
      At(Grown(trees, i, p, key)[i], p + [k]) == Node(key, true, [])
  {
    var t := trees[i];
    var n := At(t, p);
    var n' := AddChild(n, Node(key, true, []));
    PutAt(t, p, n');
    StepValid(Put(t, p, n'), p, |n.children|);
  }

  /** `growBranch` with a new key keeps the map's invariant, with the key added to `keys`. */
  lemma GrownValid<K>(trees: seq<Node<K>>, keys: set<K>, i: nat, p: Path, key: K)
    requires i < |trees| && ValidPath(trees[i], p) && key !in keys
    requires ElementsOf(trees) == multiset(keys) && Forest(trees)
    ensures ElementsOf(Grown(trees, i, p, key)) == multiset(keys + {key})
    ensures Forest(Grown(trees, i, p, key))
  {
    GrowElements(trees, i, p, key);
    GrowForest(trees, i, p, key);
    assert multiset(keys + {key}) == multiset(keys) + multiset{key};
  }

  /** Taking a tree that is a single root out of the forest takes out its key. */
  lemma RemoveRootElements<K>(trees: seq<Node<K>>, i: nat)
    requires i < |trees| && IsLeaf(trees[i])
    ensures ElementsOf(trees) == ElementsOf(Removed(trees, i, [])) + multiset{trees[i].element}
  {
    ElementsRemoveAt(trees, i);
    assert Elements(trees[i]) == multiset{trees[i].element};
  }

  /** Taking a leaf out of its parent's children takes out its key. */
  lemma RemoveChildElements<K>(trees: seq<Node<K>>, i: nat, p: Path)
    requires i < |trees| && ValidPath(trees[i], p) && p != [] && IsLeaf(At(trees[i], p))
    ensures ElementsOf(trees) == ElementsOf(Removed(trees, i, p)) + multiset{At(trees[i], p).element}
  {
    var t := trees[i];
    var key := At(t, p).element;
    var parent := Above(t, p);
    var k := Last(p);
    var parent' := parent.(children := SeqSearch.RemoveAt(parent.children, k));
    var t' := Put(t, Init(p), parent');
    assert Elements(parent) == Elements(parent') + multiset{key} by {
      ElementsRemoveAt(parent.children, k);
      assert Elements(parent.children[k]) == multiset{key};
    }
    ElementsShrink(t, Init(p), parent', multiset{key});
    ElementsOfUpdate(trees, i, t');
    Rebalance(ElementsOf(trees), Elements(t'), ElementsOf(trees[i := t']), Elements(t), multiset{key});
  }

  /** `removeKey` keeps every tree rooted, with every `parent` link below it in place. */
  lemma RemoveForest<K>(trees: seq<Node<K>>, i: nat, p: Path)
    requires i < |trees| && ValidPath(trees[i], p) && Forest(trees)
    ensures Forest(Removed(trees, i, p))
  {
    if p != [] {
      var t := trees[i];
      var parent := Above(t, p);
      var k := Last(p);
      var parent' := parent.(children := SeqSearch.RemoveAt(parent.children, k));
      ConsistentAt(t, Init(p));
      assert Consistent(parent') by {
        forall j | 0 <= j < |parent'.children|
          ensures parent'.children[j].linked && Consistent(parent'.children[j])
        {
          assert parent'.children[j] == parent.children[if j < k then j else j + 1];
        }
      }
      PutConsistent(t, Init(p), parent');
      PutTop(t, Init(p), parent');
    }
  }

  /** `removeKey` on a leaf keeps the map's invariant, with the leaf's key gone from `keys`. */
  lemma RemovedValid<K>(trees: seq<Node<K>>, keys: set<K>, i: nat, p: Path)
    requires i < |trees| && ValidPath(trees[i], p) && IsLeaf(At(trees[i], p))
    requires ElementsOf(trees) == multiset(keys) && Forest(trees)
    ensures ElementsOf(Removed(trees, i, p)) == multiset(keys - {At(trees[i], p).element})
    ensures Forest(Removed(trees, i, p))
  {
    var key := At(trees[i], p).element;
    if p == [] {
      RemoveRootElements(trees, i);
    } else {
      RemoveChildElements(trees, i, p);
    }
    SetMinus(keys, ElementsOf(Removed(trees, i, p)), key);
    RemoveForest(trees, i, p);
  }

  /** Multiset arithmetic for `RemovedValid`: what is left besides `key` is the rest of the set. */
  lemma SetMinus<K>(keys: set<K>, m: multiset<K>, key: K)
    requires multiset(keys) == m + multiset{key}
    ensures m == multiset(keys - {key})
  {
    assert multiset(keys)[key] >= 1;
    forall z ensures m[z] == multiset(keys - {key})[z] {
      assert multiset(keys)[z] == (m + multiset{key})[z];
    }
  }

  /** Two different children holding the same key hold it twice between them. */
  lemma TwoHolders<K>(cs: seq<Node<K>>, j: nat, l: nat, key: K)
    requires j < |cs| && l < |cs| && j != l && key in Elements(cs[j]) && key in Elements(cs[l])
    ensures ElementsOf(cs)[key] >= 2
  {
    if j > l {
      TwoHolders(cs, l, j, key);
    } else {
      ElementsOfSplit(cs, l);
      ElementsOfChild(cs[..l], j);
      assert cs[..l][j] == cs[j];
    }
  }

  /** When a key is held once, the node holding it is the first node `indexOf` meets with it. */
  lemma OnlyHolder<K>(cs: seq<Node<K>>, l: nat, key: K)
    requires l < |cs| && cs[l].element == key && ElementsOf(cs)[key] <= 1
    ensures IndexOfKey(cs, key) == Some(l)
  {
    var j := IndexOfKey(cs, key).value;
    if j != l {
      TwoHolders(cs, j, l, key);
    }
  }

  /** The node at `p` is the only child of its parent, and the only tree, holding its key. */
  lemma UniqueKey<K>(trees: seq<Node<K>>, i: nat, p: Path)
    requires i < |trees| && ValidPath(trees[i], p) && forall k :: ElementsOf(trees)[k] <= 1
    ensures p == [] ==> IndexOfKey(trees, trees[i].element) == Some(i)
    ensures p != [] ==> IndexOfKey(Above(trees[i], p).children, At(trees[i], p).element) == Some(Last(p))
  {
    var key := At(trees[i], p).element;
    if p == [] {
      OnlyHolder(trees, i, key);
    } else {
      var parent := Above(trees[i], p);
      ElementsAt(trees[i], Init(p));
      ElementsOfChild(trees, i);
      assert ElementsOf(parent.children) <= ElementsOf(trees);
      OnlyHolder(parent.children, Last(p), key);
    }
  }

  /** One tree more adds exactly its elements. */
  lemma ElementsOfPush<K>(trees: seq<Node<K>>, t: Node<K>)
    ensures ElementsOf(trees + [t]) == ElementsOf(trees) + Elements(t)
  {
    ElementsOfAppend(trees, [t]);
    assert [t][1..] == [];
  }

  /** `addTree` on a new key keeps the map's invariant, with the key added to `keys`. */
  lemma AddedValid<K>(trees: seq<Node<K>>, keys: set<K>, root: K)
    requires ElementsOf(trees) == multiset(keys) && Forest(trees) && root !in keys
    ensures ElementsOf(trees + [Node(root, false, [])]) == multiset(keys + {root})
    ensures Forest(trees + [Node(root, false, [])])
  {
    var tree := Node(root, false, []);
    ElementsOfPush(trees, tree);
    assert Elements(tree) == multiset{root};
    assert multiset(keys + {root}) == multiset(keys) + multiset{root};
    assert forall i :: 0 <= i < |trees| ==> (trees + [tree])[i] == trees[i];
  }

  lemma LeavesOfAppend<K>(cs: seq<Node<K>>, ds: seq<Node<K>>)
    ensures LeavesOf(cs + ds) == LeavesOf(cs) + LeavesOf(ds)
    decreases cs
  {
    if cs == [] {
      assert cs + ds == ds;
    } else {
      assert (cs + ds)[0] == cs[0] && (cs + ds)[1..] == cs[1..] + ds;
      LeavesOfAppend(cs[1..], ds);
    }
  }

  /** Every leaf of every tree is among the map's `leaves`. */
  lemma LeafListed<K>(trees: seq<Node<K>>, i: nat, p: Path)
    requires i < |trees| && ValidPath(trees[i], p) && IsLeaf(At(trees[i], p))
    ensures At(trees[i], p).element in LeavesOf(trees)
  {
    LeafInLeaves(trees[i], p);
    LeavesOfHas(trees, i, At(trees[i], p).element);
  }

  /** Only the keys of leaves are among the map's `leaves`. */
  lemma ListedIsLeaf<K>(trees: seq<Node<K>>, x: K) returns (i: nat, p: Path)
    requires x in LeavesOf(trees)
    ensures i < |trees| && ValidPath(trees[i], p) && IsLeaf(At(trees[i], p)) && At(trees[i], p).element == x
  {
    i := LeavesOfSome(trees, x);
    p := LeavesAreLeaves(trees[i], x);
  }

  /**
   * `pathToRoot` climbs from the node to the root of its tree: one key per level, starting
   * with the key asked for and ending with the root's.
   */
  lemma PathToRootFacts<K>(trees: seq<Node<K>>, key: K)
    requires Forest(trees) && FindInForest(trees, key, 0).Some?
    ensures var (i, p) := FindInForest(trees, key, 0).value;
      |Chain(trees[i], p)| == |p| + 1 && Chain(trees[i], p)[0] == key &&
      Chain(trees[i], p)[|p|] == trees[i].element
  {
    var (i, p) := FindInForest(trees, key, 0).value;
    ChainToOrigin(trees[i], p);
  }

  // ----- KFTreeMap -----

  class KFTreeMap<K(==)> {
    var trees: seq<Node<K>>
    var keys: set<K>

    /** `keys` holds each key of the forest, and each key is held by one node only. */
    ghost predicate Valid()
      reads this
    {
      ElementsOf(trees) == multiset(keys) && Forest(trees)
    }

    constructor()
      ensures Valid() && trees == [] && keys == {}
    {
      trees := [];
      keys := {};
    }

    /** `addTree(_:)`: a new one-node tree, unless the key is in the map already. */
    method AddTree(root: K)
      modifies this
      requires Valid()
      ensures Valid()
      ensures root in old(keys) ==> trees == old(trees) && keys == old(keys)
      ensures root !in old(keys) ==> trees == old(trees) + [Node(root, false, [])] && keys == old(keys) + {root}
    {
      if root !in keys {
        var tree := Node(root, false, []);
        AddedValid(trees, keys, root);
        trees := trees + [tree];
        keys := keys + {root};
      }
    }

    /** `growBranch(_:withKey:)`: a new leaf under the node holding `branch`, unless `key` is in the map. */
    method GrowBranch(branch: K, key: K)
      modifies this
      requires Valid()
      ensures Valid()
      ensures var f := FindInForest(old(trees), branch, 0);
        if key !in old(keys) && f.Some? then
          trees == Grown(old(trees), f.value.0, f.value.1, key) && keys == old(keys) + {key}
        else trees == old(trees) && keys == old(keys)
    {
      if key !in keys {
        var found := FindNode(branch);
        if found.Some? {
          var i, p := found.value.0, found.value.1;
          var node := At(trees[i], p);
          var leaf := Node(key, true, []);
          GrownValid(trees, keys, i, p, key);
          trees := trees[i := Put(trees[i], p, AddChild(node, leaf))];
          keys := keys + {key};
        }
      }
    }

    /**
     * `pathToRoot(_:)`: a new path whose origin holds `key` and which then follows the
     * `parent` links up; none when no node holds `key`.
     */
    method PathToRoot(key: K) returns (r: Option<KFTreePath.KFTreePath<K>>)
      ensures r.None? <==> FindInForest(trees, key, 0).None?
      ensures r.Some? ==> fresh(r.value) && r.value.Valid() && r.value.at == 0
      ensures r.Some? ==> (var f := FindInForest(trees, key, 0).value;
        r.value.keys == Chain(trees[f.0], f.1))
    {
      var found := FindNode(key);
      if found.None? {
        return None;
      }
      var tree, p := trees[found.value.0], found.value.1;
      var origin := new KFTreePath.KFTreePath(key);
      var at := p;
      while At(tree, at).linked && at != []
        invariant ValidPath(tree, at) && fresh(origin) && origin.Valid() && origin.at == 0
        invariant origin.keys + Chain(tree, at)[1..] == Chain(tree, p)
        decreases |at|
      {
        var parent := Above(tree, at);
        origin.Extend(true, parent.element);
        at := Init(at);
      }
      return Some(origin);
    }

    /**
     * `removeKey(_:)`: the node holding `key` goes when it is a leaf, from its parent's
     * children or, for a root, from the trees; otherwise nothing changes.
     */
    method RemoveKey(key: K)
      modifies this
      requires Valid()
      ensures Valid()
      ensures var f := FindInForest(old(trees), key, 0);
        if f.Some? && IsLeaf(At(old(trees)[f.value.0], f.value.1)) then
          trees == Removed(old(trees), f.value.0, f.value.1) && keys == old(keys) - {key}
        else trees == old(trees) && keys == old(keys)
    {
      ForestFindIffIn(trees, key);
      if key in keys {
        var found := FindNode(key);
        if found.Some? {
          var i, p := found.value.0, found.value.1;
          var node := At(trees[i], p);
          UniqueKey(trees, i, p);
          if node.linked {
            // Child node
            assert p != [];
            var parent := Above(trees[i], p);
            var (parent', removed) := RemoveChild(parent, node);
            assert parent.children[Last(p)].element == node.element;
            if removed {
              RemovedValid(trees, keys, i, p);
              trees := trees[i := Put(trees[i], Init(p), parent')];
              keys := keys - {key};
            }
          } else {
            // Root node
            ConsistentAt(trees[i], p);
            if IsLeaf(node) {
              match IndexOfKey(trees, node.element)
              case Some(index) =>
                RemovedValid(trees, keys, i, p);
                trees := SeqSearch.RemoveAt(trees, index);
                keys := keys - {key};
              case None =>
            }
          }
        }
      }
    }

    /** `leaves()`: the leaves of each tree in turn. */
    method Leaves() returns (list: seq<K>)
      ensures list == LeavesOf(trees)
    {
      list := [];
      for i := 0 to |trees|
        invariant list == LeavesOf(trees[..i])
      {
        list := list + RootedTree.Leaves(trees[i]);
        LeavesOfAppend(trees[..i], [trees[i]]);
        assert trees[..i + 1] == trees[..i] + [trees[i]];
        assert [trees[i]][1..] == [];
      }
      assert trees[..|trees|] == trees;
    }

    /** `findNode(_:)`: the first tree holding `key`, and the node's path in it. */
    method FindNode(key: K) returns (r: Option<(nat, Path)>)
      ensures r == FindInForest(trees, key, 0)
    {
      for i := 0 to |trees|
        invariant FindInForest(trees, key, 0) == FindInForest(trees, key, i)
      {
        var f := Find(trees[i], key);
        if f.Some? {
          return Some((i, f.value));
        }
      }
      return None;
    }

    /** `count`: the number of keys, which is the number of nodes. */
    function Count(): (c: nat)
      reads this
      ensures Valid() ==> c == |ElementsOf(trees)|
    {
      |keys|
    }

    /** `contains(_:)`: some node holds `key`. */
    function Contains(key: K): (b: bool)
      reads this
      ensures Valid() ==> (b <==> key in ElementsOf(trees)) && (b <==> FindInForest(trees, key, 0).Some?)
    {
      ForestFindIffIn(trees, key);
      key in keys
    }
  }
}

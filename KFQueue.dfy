/**
 * KFQueue.swift: a FIFO queue over a doubly linked list of `KFQueueNode`s,
 * with `head`, `tail` and an `internalCount`, and its subclass
 * `KFDynamicQueue`, which keeps a set of the queued keys, refuses a key it
 * already holds and can invalidate a queued key.
 *
 * Nodes are reference objects in the source. Here a node is an id in the
 * queue's arena and each of its three fields is a map from ids: `nodeKey`,
 * `nextItem` and `previousItem`; setting a node's field is a map update. The
 * ghost `chain` lists the ids reachable from `head` through `nextItem`, in
 * order.
 */
module KFQueue {
  import opened Wrappers
  import opened SeqSearch

  type NodeId = nat

  /** The keys of the nodes `chain` lists, in chain order. */
  ghost function KeysOf<T>(nodeKey: map<NodeId, T>, chain: seq<NodeId>): (r: seq<T>)
    requires forall i :: 0 <= i < |chain| ==> chain[i] in nodeKey
  {
    seq(|chain|, i requires 0 <= i < |chain| => nodeKey[chain[i]])
  }

  /** Every id `chain` lists has an entry in `m`. */
  ghost predicate InArena<V>(m: map<NodeId, V>, chain: seq<NodeId>) {
    forall i :: 0 <= i < |chain| ==> chain[i] in m
  }

  /** Following `nextItem` from `chain[0]` visits exactly `chain` and then reaches nil. */
  ghost predicate ForwardLinked(nextItem: map<NodeId, Option<NodeId>>, chain: seq<NodeId>)
    requires InArena(nextItem, chain)
  {
    && (forall i {:trigger nextItem[chain[i]]} :: 0 <= i < |chain| - 1 ==> nextItem[chain[i]] == Some(chain[i + 1]))
    && (chain != [] ==> nextItem[chain[|chain| - 1]] == None)
  }

  /** Every node of `chain` after the first points back at the one before it. */
  ghost predicate BackwardLinked(previousItem: map<NodeId, Option<NodeId>>, chain: seq<NodeId>)
    requires InArena(previousItem, chain)
  {
    forall i {:trigger previousItem[chain[i]]} :: 0 < i < |chain| ==> previousItem[chain[i]] == Some(chain[i - 1])
  }

  /**
   * The arena holds a duplicate-free `chain` of ids, all below `nextId`, each
   * with a key and both links, linked forwards from the first to nil and
   * backwards from each node after the first to its predecessor.
   */
  ghost predicate Chained<T>(nodeKey: map<NodeId, T>, nextItem: map<NodeId, Option<NodeId>>,
                             previousItem: map<NodeId, Option<NodeId>>, chain: seq<NodeId>, nextId: NodeId)
  {
    && Distinct(chain)
    && InArena(nodeKey, chain) && InArena(nextItem, chain) && InArena(previousItem, chain)
    && (forall i :: 0 <= i < |chain| ==> chain[i] < nextId)
    && ForwardLinked(nextItem, chain)
    && BackwardLinked(previousItem, chain)
  }

  /** The first id of `chain`, or None: where `head` has to point. */
  function First(chain: seq<NodeId>): Option<NodeId> {
    if chain == [] then None else Some(chain[0])
  }

  /** The last id of `chain`, or None: where `tail` has to point. */
  function Last(chain: seq<NodeId>): Option<NodeId> {
    if chain == [] then None else Some(chain[|chain| - 1])
  }

  class KFQueue<T(==)> {
    var nodeKey: map<NodeId, T>
    var nextItem: map<NodeId, Option<NodeId>>
    var previousItem: map<NodeId, Option<NodeId>>
    var head: Option<NodeId>
    var tail: Option<NodeId>
    var internalCount: int
    var nextId: NodeId
    ghost var chain: seq<NodeId>

    /**
     * The `head -> nextItem` chain is `chain` and `internalCount` is its
     * length. The head's own `previousItem` is not constrained: `dequeue`
     * leaves it pointing at the node it dropped.
     */
    ghost predicate Linked()
      reads this
    {
      Arranged() && internalCount == |chain|
    }

    /** The links are in order; `internalCount` aside. */
    ghost predicate Arranged()
      reads this
    {
      Chained(nodeKey, nextItem, previousItem, chain, nextId) && head == First(chain)
    }

    /** A linked queue whose `tail` is the last node of the chain. */
    ghost predicate Valid()
      reads this
    {
      Linked() && tail == Last(chain)
    }

    /** The queued keys, front first. */
    ghost function Keys(): seq<T>
      reads this
      requires Linked()
    {
      KeysOf(nodeKey, chain)
    }

    constructor ()
      ensures Valid() && Keys() == []
    {
      nodeKey := map[];
      nextItem := map[];
      previousItem := map[];
      head := None;
      tail := None;
      internalCount := 0;
      nextId := 0;
      chain := [];
    }

    /** `init(array:)`: enqueues the elements in order. */
    constructor FromArray(items: seq<T>)
      ensures Valid() && Keys() == items
    {
      nodeKey := map[];
      nextItem := map[];
      previousItem := map[];
      head := None;
      tail := None;
      internalCount := 0;
      nextId := 0;
      chain := [];
      new;
      var i := 0;
      while i < |items|
        invariant 0 <= i <= |items|
        invariant Valid() && Keys() == items[..i]
      {
        Enqueue(items[i]);
        assert items[..i + 1] == items[..i] + [items[i]];
        i := i + 1;
      }
      assert items[..i] == items;
    }

    /** `KFQueueNode(key:)`: a fresh node holding `key`, with both links nil. */
    method NewNode(key: T) returns (id: NodeId)
      modifies this
      ensures id == old(nextId) && nextId == old(nextId) + 1
      ensures nodeKey == old(nodeKey)[id := key]
      ensures nextItem == old(nextItem)[id := None] && previousItem == old(previousItem)[id := None]
      ensures head == old(head) && tail == old(tail) && internalCount == old(internalCount) && chain == old(chain)
    {
      id := nextId;
      nextId := nextId + 1;
      nodeKey := nodeKey[id := key];
      nextItem := nextItem[id := None];
      previousItem := previousItem[id := None];
    }

    /**
     * Links a new node after `tail`, or makes it both `head` and `tail` when
     * the queue is empty, and counts it.
     */
    method Enqueue(key: T)
      requires Valid()
      modifies this
      ensures Valid()
      ensures Keys() == old(Keys()) + [key]
    {
      AppendNode(nodeKey, nextItem, previousItem, chain, nextId, key);
      var id: NodeId;
      if IsEmpty() {
        id := NewNode(key);
        head := Some(id);
        tail := head;
      } else {
        id := NewNode(key);
        nextItem := nextItem[tail.value := Some(id)];
        previousItem := previousItem[id := tail];
        tail := Some(id);
      }
      chain := chain + [id];
      internalCount := internalCount + 1;
    }

    /**
     * Removes and returns the front key. The nodes keep their links: the
     * new head still points back at the dropped node. Dequeuing the last key
     * clears both `head` and `tail`.
     */
    method Dequeue() returns (r: Option<T>)
      requires Linked()
      modifies this
      ensures Linked()
      ensures old(Keys()) == [] ==> r.None? && unchanged(this)
      ensures old(Keys()) != [] ==> r == Some(old(Keys())[0]) && Keys() == old(Keys())[1..]
      ensures old(chain) != [] ==> chain == old(chain)[1..]
      ensures nodeKey == old(nodeKey) && nextItem == old(nextItem) && previousItem == old(previousItem)
      ensures nextId == old(nextId)
      ensures |old(chain)| == 1 ==> head.None? && tail.None?
      ensures |old(chain)| != 1 ==> tail == old(tail)
      ensures old(Valid()) ==> Valid()
    {
      if IsEmpty() {
        return None;
      }
      DropFront(nodeKey, nextItem, previousItem, chain, nextId);
      var current := head.value;
      match nextItem[current] {
        case Some(next) =>
          head := Some(next);
        case None =>
          head := None;
          tail := None;
      }
      chain := chain[1..];
      internalCount := internalCount - 1;
      r := Some(nodeKey[current]);
    }

    /** The front key, without removing it. */
    function Peek(): (r: Option<T>)
      reads this
      requires Linked()
      ensures r.None? <==> Keys() == []
      ensures r.Some? ==> r.value == Keys()[0]
    {
      if head.None? then None else Some(nodeKey[head.value])
    }

    function IsEmpty(): (b: bool)
      reads this
      requires Linked()
      ensures b <==> Keys() == []
    {
      internalCount == 0
    }

    function Count(): (n: int)
      reads this
      requires Linked()
      ensures n == |Keys()|
    {
      internalCount
    }

    /**
     * `node(key:)`: walks the chain from `head` and returns the first node
     * holding `key` (compared by identity in the source), or None. `index`
     * is that node's position in the chain.
     */
    method Node(key: T) returns (r: Option<NodeId>, ghost index: nat)
      requires Linked()
      ensures r.None? <==> key !in Keys()
      ensures r.Some? ==> index < |chain| && chain[index] == r.value && IndexOf(Keys(), key) == Some(index)
      ensures r.Some? ==> (r == head <==> index == 0)
    {
      if IsEmpty() {
        return None, 0;
      }
      var current := head;
      if nodeKey[current.value] == key {
        assert Keys()[0] == key;
        return current, 0;
      }
      index := 0;
      while current.Some?
        invariant index <= |chain|
        invariant current == (if index < |chain| then Some(chain[index]) else None)
        invariant key !in Keys()[..index] && Keys()[0] != key
        decreases |chain| - index
      {
        if nodeKey[current.value] == key {
          assert Keys()[index] == key;
          return current, index;
        }
        assert Keys()[..index + 1] == Keys()[..index] + [Keys()[index]];
        current := nextItem[current.value];
        index := index + 1;
      }
      assert Keys()[..index] == Keys();
      return None, 0;
    }

    /**
     * The first half of the relinking in `KFDynamicQueue.invalidate`: the
     * node at chain position `i` (not the head) is bypassed. Its predecessor
     * takes over its `nextItem` and its successor, if any, points back at
     * that predecessor. The node keeps its own links, `internalCount` still
     * counts it, and `tail` is not touched, so when the node was the tail,
     * `tail` still names it.
     */
    method Unhook(id: NodeId, ghost i: nat)
      requires Linked() && 0 < i < |chain| && chain[i] == id
      modifies this
      ensures Arranged() && internalCount == |chain| + 1
      ensures chain == RemoveAt(old(chain), i) && id !in chain
      ensures Last(chain) == if i < |old(chain)| - 1 then Last(old(chain)) else Some(old(chain)[i - 1])
      ensures old(chain)[|old(chain)| - 1] == id <==> i == |old(chain)| - 1
      ensures id in nodeKey && id in nextItem && id in previousItem && id < nextId
      ensures head == old(head) && tail == old(tail) && nodeKey == old(nodeKey) && nextId == old(nextId)
    {
      ghost var rest := RemoveAt(chain, i);
      var previous := previousItem[id];
      var next := nextItem[id];
      assert previous == Some(chain[i - 1]);
      assert next == if i + 1 < |chain| then Some(chain[i + 1]) else None;
      Unhooked(nodeKey, nextItem, previousItem, chain, nextId, i);
      if previous.Some? {
        nextItem := nextItem[previous.value := next];
      }
      if next.Some? {
        previousItem := previousItem[next.value := previous];
      }
      chain := rest;
    }

    /** `Unhook` that also moves `tail` back to the predecessor when the node was the tail. */
    method UnhookFixed(id: NodeId, ghost i: nat)
      requires Valid() && 0 < i < |chain| && chain[i] == id
      modifies this
      ensures Arranged() && internalCount == |chain| + 1 && tail == Last(chain)
      ensures chain == RemoveAt(old(chain), i) && id !in chain
      ensures id in nodeKey && id in nextItem && id in previousItem && id < nextId
      ensures head == old(head) && nodeKey == old(nodeKey) && nextId == old(nextId)
    {
      var previous := previousItem[id];
      assert previous == Some(chain[i - 1]);
      Unhook(id, i);
      if tail == Some(id) {
        tail := previous;
      }
    }

    /**
     * The second half: a node outside the chain goes in front of the head,
     * pointing at it, and the old head points back at it. The count already
     * includes it.
     */
    method PushFront(id: NodeId)
      requires Arranged() && internalCount == |chain| + 1 && chain != []
      requires id !in chain && id in nodeKey && id in nextItem && id in previousItem && id < nextId
      modifies this
      ensures Linked() && chain == [id] + old(chain) && Last(chain) == Last(old(chain))
      ensures tail == old(tail) && nodeKey == old(nodeKey) && nextId == old(nextId)
    {
      PushedFront(nodeKey, nextItem, previousItem, chain, nextId, id);
      previousItem := previousItem[head.value := Some(id)];
      nextItem := nextItem[id := head];
      head := Some(id);
      chain := [id] + chain;
    }

    /**
     * `for key in queue` as written: the generator starts at `head` and each
     * `next()` first advances (`current = current.nextItem!`) and then yields,
     * so the head key is never produced, and the call after the last key
     * force-unwraps nil. An empty queue traps in `generate()` already; both
     * traps end the loop here, with what was yielded so far.
     */
    method IterateAsWritten() returns (yielded: seq<T>)
      requires Linked()
      ensures Keys() == [] ==> yielded == []
      ensures Keys() != [] ==> yielded == Keys()[1..]
    {
      yielded := [];
      if head.None? {
        return;
      }
      var current := head.value;
      ghost var k := 0;
      while nextItem[current].Some?
        invariant k < |chain| && current == chain[k]
        invariant yielded == Keys()[1..k + 1]
        decreases |chain| - k
      {
        assert k != |chain| - 1;
        assert nextItem[chain[k]] == Some(chain[k + 1]);
        current := nextItem[current].value;
        k := k + 1;
        yielded := yielded + [nodeKey[current]];
      }
      assert k == |chain| - 1;
    }

    /** Iteration as evidently intended: every key from `head` to the end, then nil. */
    method IterateFixed() returns (yielded: seq<T>)
      requires Linked()
      ensures yielded == Keys()
    {
      yielded := [];
      var current := head;
      ghost var k := 0;
      while current.Some?
        invariant k <= |chain|
        invariant current == (if k < |chain| then Some(chain[k]) else None)
        invariant yielded == Keys()[..k]
        decreases |chain| - k
      {
        yielded := yielded + [nodeKey[current.value]];
        current := nextItem[current.value];
        k := k + 1;
      }
      assert Keys()[..k] == Keys();
    }
  }

  /**
   * `enqueue` on the arena: a fresh node with nil links, then, when the chain
   * is not empty, the old last node's `nextItem` and the new node's
   * `previousItem` join the two. The chain grows by the fresh id and the keys
   * by `key`.
   */
  lemma AppendNode<T>(nodeKey: map<NodeId, T>, nextItem: map<NodeId, Option<NodeId>>,
                      previousItem: map<NodeId, Option<NodeId>>, chain: seq<NodeId>, nextId: NodeId, key: T)
    requires Chained(nodeKey, nextItem, previousItem, chain, nextId)
    ensures var nk := nodeKey[nextId := key];
            var ni := nextItem[nextId := None];
            var pi := previousItem[nextId := None];
            && (chain == [] ==> Chained(nk, ni, pi, chain + [nextId], nextId + 1))
            && (chain != [] ==> Chained(nk, ni[chain[|chain| - 1] := Some(nextId)], pi[nextId := Some(chain[|chain| - 1])], chain + [nextId], nextId + 1))
            && KeysOf(nk, chain + [nextId]) == KeysOf(nodeKey, chain) + [key]
  {
    AppendFresh(chain, nextId);
    AppendKeys(nodeKey, chain, nextId, key);
    AppendForward(nextItem, chain, nextId);
    AppendBackward(previousItem, chain, nextId);
  }

  /** A fresh id, above all the chain holds, keeps the chain duplicate-free. */
  lemma AppendFresh(chain: seq<NodeId>, id: NodeId)
    requires Distinct(chain) && forall i :: 0 <= i < |chain| ==> chain[i] < id
    ensures Distinct(chain + [id]) && forall i :: 0 <= i < |chain| + 1 ==> (chain + [id])[i] < id + 1
  {
    var c := chain + [id];
    Distinctness(chain);
    assert forall i :: 0 <= i < |chain| ==> c[i] == chain[i];
    assert NoDuplicates(c);
    Distinctness(c);
  }

  /** The fresh node's key follows the others. */
  lemma AppendKeys<T>(nodeKey: map<NodeId, T>, chain: seq<NodeId>, id: NodeId, key: T)
    requires InArena(nodeKey, chain) && forall i :: 0 <= i < |chain| ==> chain[i] < id
    ensures InArena(nodeKey[id := key], chain + [id])
    ensures KeysOf(nodeKey[id := key], chain + [id]) == KeysOf(nodeKey, chain) + [key]
  {
    var c := chain + [id];
    assert forall i :: 0 <= i < |chain| ==> c[i] == chain[i];
    assert KeysOf(nodeKey[id := key], c) == KeysOf(nodeKey, chain) + [key];
  }

  /** The old last node's `nextItem` reaches the fresh node, whose own is nil. */
  lemma AppendForward(nextItem: map<NodeId, Option<NodeId>>, chain: seq<NodeId>, id: NodeId)
    requires InArena(nextItem, chain) && ForwardLinked(nextItem, chain)
    requires forall i :: 0 <= i < |chain| ==> chain[i] < id
    ensures chain == [] ==> InArena(nextItem[id := None], [id]) && ForwardLinked(nextItem[id := None], [id])
    ensures chain != [] ==>
      var ni := nextItem[id := None][chain[|chain| - 1] := Some(id)];
      InArena(ni, chain + [id]) && ForwardLinked(ni, chain + [id])
  {
    if chain != [] {
      var last := chain[|chain| - 1];
      var ni := nextItem[id := None][last := Some(id)];
      var c := chain + [id];
      assert forall i :: 0 <= i < |chain| ==> c[i] == chain[i];
      Distinctness(chain);
      forall j | 0 <= j < |c| - 1 ensures ni[c[j]] == Some(c[j + 1]) {
        if j < |chain| - 1 {
          assert nextItem[chain[j]] == Some(chain[j + 1]);
        }
      }
    }
  }

  /** The fresh node points back at the old last node. */
  lemma AppendBackward(previousItem: map<NodeId, Option<NodeId>>, chain: seq<NodeId>, id: NodeId)
    requires InArena(previousItem, chain) && BackwardLinked(previousItem, chain)
    requires forall i :: 0 <= i < |chain| ==> chain[i] < id
    ensures chain == [] ==> InArena(previousItem[id := None], [id]) && BackwardLinked(previousItem[id := None], [id])
    ensures chain != [] ==>
      var pi := previousItem[id := None][id := Some(chain[|chain| - 1])];
      InArena(pi, chain + [id]) && BackwardLinked(pi, chain + [id])
  {
    if chain != [] {
      var pi := previousItem[id := None][id := Some(chain[|chain| - 1])];
      var c := chain + [id];
      assert forall i :: 0 <= i < |chain| ==> c[i] == chain[i];
      forall j | 0 < j < |c| ensures pi[c[j]] == Some(c[j - 1]) {
        if j < |chain| {
          assert previousItem[chain[j]] == Some(chain[j - 1]);
        }
      }
    }
  }

  /** `dequeue` on the arena: the links stay, the chain and the keys lose their first element. */
  lemma DropFront<T>(nodeKey: map<NodeId, T>, nextItem: map<NodeId, Option<NodeId>>,
                     previousItem: map<NodeId, Option<NodeId>>, chain: seq<NodeId>, nextId: NodeId)
    requires Chained(nodeKey, nextItem, previousItem, chain, nextId) && chain != []
    ensures Chained(nodeKey, nextItem, previousItem, chain[1..], nextId)
    ensures nextItem[chain[0]] == First(chain[1..])
    ensures KeysOf(nodeKey, chain[1..]) == KeysOf(nodeKey, chain)[1..]
    ensures Last(chain[1..]) == if |chain| == 1 then None else Last(chain)
  {
    var c := chain[1..];
    assert forall j :: 0 <= j < |c| ==> c[j] == chain[j + 1];
    Distinctness(chain);
    assert NoDuplicates(c);
    Distinctness(c);
    assert ForwardLinked(nextItem, c) by {
      forall j | 0 <= j < |c| - 1 ensures nextItem[c[j]] == Some(c[j + 1]) {
        assert nextItem[chain[j + 1]] == Some(chain[j + 2]);
      }
    }
    assert BackwardLinked(previousItem, c) by {
      forall j | 0 < j < |c| ensures previousItem[c[j]] == Some(c[j - 1]) {
        assert previousItem[chain[j + 1]] == Some(chain[j]);
      }
    }
  }

  /**
   * `Unhook` on the arena, for the node at position `i` of the chain: with
   * its predecessor's `nextItem` taking over its own and its successor (if
   * any) pointing back at that predecessor, the chain without it is linked.
   */
  lemma Unhooked<T>(nodeKey: map<NodeId, T>, nextItem: map<NodeId, Option<NodeId>>,
                    previousItem: map<NodeId, Option<NodeId>>, chain: seq<NodeId>, nextId: NodeId, i: nat)
    requires Chained(nodeKey, nextItem, previousItem, chain, nextId) && 0 < i < |chain|
    ensures var ni := nextItem[chain[i - 1] := nextItem[chain[i]]];
            var pi := if i + 1 < |chain| then previousItem[chain[i + 1] := Some(chain[i - 1])] else previousItem;
            Chained(nodeKey, ni, pi, RemoveAt(chain, i), nextId)
    ensures chain[i] !in RemoveAt(chain, i)
    ensures First(RemoveAt(chain, i)) == First(chain)
    ensures Last(RemoveAt(chain, i)) == if i < |chain| - 1 then Last(chain) else Some(chain[i - 1])
    ensures chain[|chain| - 1] == chain[i] <==> i == |chain| - 1
  {
    var r := RemoveAt(chain, i);
    Distinctness(chain);
    RemoveAtDistinct(chain, i);
    RemoveAtDrops(chain, i);
    Distinctness(r);
    UnhookedForward(nextItem, chain, i);
    UnhookedBackward(previousItem, chain, i);
    UnhookedKeys(nodeKey, chain, nextId, i);
  }

  /** Unhooking keeps every remaining id in the arena and below `nextId`. */
  lemma UnhookedKeys<T>(nodeKey: map<NodeId, T>, chain: seq<NodeId>, nextId: NodeId, i: nat)
    requires InArena(nodeKey, chain) && (forall j :: 0 <= j < |chain| ==> chain[j] < nextId) && i < |chain|
    ensures InArena(nodeKey, RemoveAt(chain, i)) && forall j :: 0 <= j < |RemoveAt(chain, i)| ==> RemoveAt(chain, i)[j] < nextId
  {
    var r := RemoveAt(chain, i);
    forall j | 0 <= j < |r| ensures r[j] in nodeKey && r[j] < nextId {
      if j < i { assert r[j] == chain[j]; } else { assert r[j] == chain[j + 1]; }
    }
  }

  /** The forward half of `Unhooked`. */
  lemma UnhookedForward(nextItem: map<NodeId, Option<NodeId>>, chain: seq<NodeId>, i: nat)
    requires NoDuplicates(chain) && 0 < i < |chain|
    requires InArena(nextItem, chain) && ForwardLinked(nextItem, chain)
    ensures var ni := nextItem[chain[i - 1] := nextItem[chain[i]]];
            InArena(ni, RemoveAt(chain, i)) && ForwardLinked(ni, RemoveAt(chain, i))
  {
    var r := RemoveAt(chain, i);
    var ni := nextItem[chain[i - 1] := nextItem[chain[i]]];
    assert forall j :: 0 <= j < |r| ==> r[j] == if j < i then chain[j] else chain[j + 1];
    forall j | 0 <= j < |r| - 1 ensures ni[r[j]] == Some(r[j + 1]) {
      if j < i - 1 {
        assert nextItem[chain[j]] == Some(chain[j + 1]);
      } else if j >= i {
        assert chain[j + 1] != chain[i - 1] && nextItem[chain[j + 1]] == Some(chain[j + 2]);
      }
    }
    if i < |chain| - 1 {
      assert chain[|chain| - 1] != chain[i - 1];
    }
  }

  /** The backward half of `Unhooked`. */
  lemma UnhookedBackward(previousItem: map<NodeId, Option<NodeId>>, chain: seq<NodeId>, i: nat)
    requires NoDuplicates(chain) && 0 < i < |chain|
    requires InArena(previousItem, chain) && BackwardLinked(previousItem, chain)
    ensures var pi := if i + 1 < |chain| then previousItem[chain[i + 1] := Some(chain[i - 1])] else previousItem;
            InArena(pi, RemoveAt(chain, i)) && BackwardLinked(pi, RemoveAt(chain, i))
  {
    var r := RemoveAt(chain, i);
    var pi := if i + 1 < |chain| then previousItem[chain[i + 1] := Some(chain[i - 1])] else previousItem;
    assert forall j :: 0 <= j < |r| ==> r[j] == if j < i then chain[j] else chain[j + 1];
    forall j | 0 < j < |r| ensures pi[r[j]] == Some(r[j - 1]) {
      if j < i {
        assert i + 1 < |chain| ==> chain[j] != chain[i + 1];
        assert previousItem[chain[j]] == Some(chain[j - 1]);
      } else if j > i {
        assert chain[j + 1] != chain[i + 1] && previousItem[chain[j + 1]] == Some(chain[j]);
      }
    }
  }

  /**
   * `PushFront` on the arena: a node outside the chain that points at the
   * first node, which points back at it, heads a linked chain.
   */
  lemma PushedFront<T>(nodeKey: map<NodeId, T>, nextItem: map<NodeId, Option<NodeId>>,
                       previousItem: map<NodeId, Option<NodeId>>, chain: seq<NodeId>, nextId: NodeId, id: NodeId)
    requires Chained(nodeKey, nextItem, previousItem, chain, nextId) && chain != []
    requires id !in chain && id in nodeKey && id in nextItem && id in previousItem && id < nextId
    ensures Chained(nodeKey, nextItem[id := Some(chain[0])], previousItem[chain[0] := Some(id)], [id] + chain, nextId)
    ensures Last([id] + chain) == Last(chain)
  {
    var c := [id] + chain;
    var ni := nextItem[id := Some(chain[0])];
    var pi := previousItem[chain[0] := Some(id)];
    Distinctness(chain);
    assert forall j :: 0 < j < |c| ==> c[j] == chain[j - 1];
    assert NoDuplicates(c);
    Distinctness(c);
    assert ForwardLinked(ni, c) by {
      forall j | 0 <= j < |c| - 1 ensures ni[c[j]] == Some(c[j + 1]) {
        if j > 0 {
          assert nextItem[chain[j - 1]] == Some(chain[j]);
        }
      }
    }
    assert BackwardLinked(pi, c) by {
      forall j | 0 < j < |c| ensures pi[c[j]] == Some(c[j - 1]) {
        if j > 1 {
          assert chain[j - 1] != chain[0] && previousItem[chain[j - 1]] == Some(chain[j - 2]);
        }
      }
    }
  }

  /** The keys travel with their nodes through `remove(at:)` and a push in front. */
  lemma KeysFollowNodes<T>(nodeKey: map<NodeId, T>, chain: seq<NodeId>, i: nat, id: NodeId)
    requires i < |chain| && InArena(nodeKey, chain) && id in nodeKey
    ensures InArena(nodeKey, RemoveAt(chain, i)) && InArena(nodeKey, [id] + RemoveAt(chain, i))
    ensures KeysOf(nodeKey, RemoveAt(chain, i)) == RemoveAt(KeysOf(nodeKey, chain), i)
    ensures KeysOf(nodeKey, [id] + RemoveAt(chain, i)) == [nodeKey[id]] + RemoveAt(KeysOf(nodeKey, chain), i)
  {
    var r := RemoveAt(chain, i);
    var keys := KeysOf(nodeKey, chain);
    assert forall j :: 0 <= j < |r| ==> r[j] == if j < i then chain[j] else chain[j + 1];
    assert KeysOf(nodeKey, r) == RemoveAt(keys, i);
    assert KeysOf(nodeKey, [id] + r) == [nodeKey[id]] + RemoveAt(keys, i);
  }

  /**
   * The keys of a chain whose node `i` is taken out and put in front: the
   * same keys, still without repeats, and behind the new front exactly the
   * old keys without the one at `i`.
   */
  lemma TakenToFront<T>(nodeKey: map<NodeId, T>, chain: seq<NodeId>, i: nat)
    requires i < |chain| && InArena(nodeKey, chain) && Distinct(KeysOf(nodeKey, chain))
    ensures InArena(nodeKey, [chain[i]] + RemoveAt(chain, i))
    ensures var moved := KeysOf(nodeKey, [chain[i]] + RemoveAt(chain, i));
            && Distinct(moved) && Elements(moved) == Elements(KeysOf(nodeKey, chain))
            && moved[1..] == RemoveAt(KeysOf(nodeKey, chain), i)
  {
    var s := KeysOf(nodeKey, chain);
    KeysFollowNodes(nodeKey, chain, i, chain[i]);
    var c := [s[i]] + RemoveAt(s, i);
    assert c[1..] == RemoveAt(s, i);
    assert forall j :: 0 < j < |c| ==> c[j] == if j - 1 < i then s[j - 1] else s[j];
    forall x ensures x in c <==> x in s {
      if x in s {
        var j :| 0 <= j < |s| && s[j] == x;
        if j == i { assert c[0] == x; } else if j < i { assert c[j + 1] == x; } else { assert c[j] == x; }
      }
    }
    Distinctness(s);
    RemoveAtDistinct(s, i);
    RemoveAtDrops(s, i);
    Distinctness(c);
  }

  /**
   * One element of `init(array:)`: whether or not `rest[0]` was already
   * queued, the queue so far followed by what the remaining elements add is
   * unchanged.
   */
  lemma DeduplicateStep<X>(queued: seq<X>, rest: seq<X>, seen: set<X>, queued': seq<X>, seen': set<X>)
    requires rest != []
    requires rest[0] in seen ==> queued' == queued && seen' == seen
    requires rest[0] !in seen ==> queued' == queued + [rest[0]] && seen' == seen + {rest[0]}
    ensures queued' + Deduplicate(rest[1..], seen') == queued + Deduplicate(rest, seen)
  {
  }

  /** In a sequence without repeats, position `i` holds the last element only if it is the last position. */
  lemma LastKey<X>(s: seq<X>, i: nat)
    requires Distinct(s) && i < |s|
    ensures s[i] == s[|s| - 1] <==> i == |s| - 1
  {
    assert At(s, i) == s[i] && At(s, |s| - 1) == s[|s| - 1];
  }

  /** Appending a key not yet present keeps the keys distinct and adds it to their set. */
  lemma KeyAppended<X>(s: seq<X>, x: X)
    requires Distinct(s) && x !in s
    ensures Distinct(s + [x]) && Elements(s + [x]) == Elements(s) + {x}
  {
    Distinctness(s);
    Distinctness(s + [x]);
  }

  /** Dropping the first of distinct keys removes exactly that key from their set. */
  lemma KeyDropped<X>(s: seq<X>)
    requires Distinct(s) && s != []
    ensures Distinct(s[1..]) && Elements(s[1..]) == Elements(s) - {s[0]}
  {
    Distinctness(s);
    assert s == [s[0]] + s[1..];
    Distinctness(s[1..]);
  }

  /**
   * `KFDynamicQueue`: a `KFQueue` plus the set `keys` of the keys it holds.
   * The subclass is modelled by composition: `queue` is the inherited part.
   */
  class KFDynamicQueue<T(==)> {
    const queue: KFQueue<T>
    var keys: set<T>

    /** The set mirrors the queued keys and no key is queued twice. */
    ghost predicate Consistent()
      reads this, queue
    {
      queue.Linked() && keys == Elements(queue.Keys()) && Distinct(queue.Keys())
    }

    /** Consistent, and the queue's `tail` is the last node. */
    ghost predicate Valid()
      reads this, queue
    {
      Consistent() && queue.Valid()
    }

    /**
     * `init(array:)`: the inherited initializer enqueues each element through
     * the overriding `enqueue`, so a repeated element is dropped.
     */
    constructor FromArray(items: seq<T>)
      ensures Valid() && fresh(queue)
      ensures queue.Keys() == Deduplicate(items, {})
    {
      queue := new KFQueue<T>();
      keys := {};
      new;
      var i := 0;
      while i < |items|
        invariant 0 <= i <= |items|
        invariant Valid()
        invariant queue.Keys() + Deduplicate(items[i..], keys) == Deduplicate(items, {})
      {
        ghost var queued, seen := queue.Keys(), keys;
        Enqueue(items[i]);
        assert items[i..][1..] == items[i + 1..];
        DeduplicateStep(queued, items[i..], seen, queue.Keys(), keys);
        i := i + 1;
      }
    }

    /** Enqueues `key` unless it is already queued, in which case nothing changes. */
    method Enqueue(key: T)
      requires Valid()
      modifies this, queue
      ensures Valid()
      ensures key in old(keys) ==> queue.Keys() == old(queue.Keys()) && keys == old(keys)
      ensures key !in old(keys) ==> queue.Keys() == old(queue.Keys()) + [key] && keys == old(keys) + {key}
    {
      if !Contains(key) {
        KeyAppended(queue.Keys(), key);
        queue.Enqueue(key);
        keys := keys + {key};
      }
    }

    /** Dequeues the front key and forgets it. */
    method Dequeue() returns (r: Option<T>)
      requires Consistent()
      modifies this, queue
      ensures Consistent()
      ensures old(queue.Keys()) == [] ==> r.None? && queue.Keys() == old(queue.Keys()) && keys == old(keys)
      ensures old(queue.Keys()) != [] ==> r == Some(old(queue.Keys())[0]) && queue.Keys() == old(queue.Keys())[1..]
      ensures r.Some? ==> keys == old(keys) - {r.value}
      ensures old(queue.chain) != [] ==> queue.chain == old(queue.chain)[1..]
      ensures |old(queue.chain)| != 1 ==> queue.tail == old(queue.tail)
      ensures old(Valid()) ==> Valid()
    {
      ghost var before := queue.Keys();
      r := queue.Dequeue();
      if r.Some? {
        keys := keys - {r.value};
        KeyDropped(before);
      }
    }

    /**
     * `invalidate(key)` as written: a queued key's node is moved in front of
     * the head (unless it is the head) and then dequeued, so the key leaves
     * both the queue and `keys`. When the key was the tail of a queue of two
     * or more, `tail` still names its node, which is no longer in the chain.
     */
    method Invalidate(key: T)
      requires Valid()
      modifies this, queue
      ensures Consistent()
      ensures queue.Keys() == RemoveFirst(old(queue.Keys()), key) && keys == old(keys) - {key}
      ensures !(|old(queue.Keys())| > 1 && old(queue.Keys())[|old(queue.Keys())| - 1] == key) ==> Valid()
      ensures |old(queue.Keys())| > 1 && old(queue.Keys())[|old(queue.Keys())| - 1] == key ==>
        queue.tail == old(queue.tail) && queue.tail.Some? && queue.tail.value !in queue.chain
    {
      var node, i := queue.Node(key);
      if node.Some? {
        ghost var before := queue.Keys();
        ghost var ids := queue.chain;
        LastKey(before, i);
        if node != queue.head {
          TakenToFront(queue.nodeKey, queue.chain, i);
          queue.Unhook(node.value, i);
          ghost var rest := queue.chain;
          queue.PushFront(node.value);
          assert queue.chain[1..] == rest && node.value !in rest;
        } else {
          assert RemoveAt(before, 0) == before[1..];
        }
        assert queue.Keys()[1..] == RemoveAt(before, i);
        var _ := Dequeue();
      }
    }

    /** `invalidate(key)` with `tail` moved back when the key was the tail. */
    method InvalidateFixed(key: T)
      requires Valid()
      modifies this, queue
      ensures Valid()
      ensures queue.Keys() == RemoveFirst(old(queue.Keys()), key) && keys == old(keys) - {key}
    {
      var node, i := queue.Node(key);
      if node.Some? {
        if node != queue.head {
          TakenToFront(queue.nodeKey, queue.chain, i);
          queue.UnhookFixed(node.value, i);
          queue.PushFront(node.value);
        }
        var _ := Dequeue();
      }
    }

    /** Membership in `keys`. */
    function Contains(key: T): (b: bool)
      reads this, queue
      requires Consistent()
      ensures b <==> key in queue.Keys()
    {
      key in keys
    }
  }
}

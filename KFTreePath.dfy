/**
 * KFTreeMap.swift, `KFTreePath`: a doubly linked chain of keys, each node with `next` and
 * `previous` links.
 *
 * A path object here is the whole chain, as the sequence of its keys from origin to
 * destination, together with the position of the node the object stands for (`at`). Every
 * chain is built by linking a new node at one of its ends, so `next` and `previous` always
 * agree with the order of `keys`; the node reached from another one is a position in the
 * same chain.
 */
module KFTreePath {
  import opened Wrappers

  /** `stepNext(forward)` of the node at position `i`: its `next` or its `previous`. */
  function StepNext<K>(keys: seq<K>, i: nat, forward: bool): (r: Option<nat>)
    requires i < |keys|
    ensures r.Some? ==> r.value < |keys| && (if forward then r.value == i + 1 else r.value + 1 == i)
    ensures r.None? <==> (if forward then i + 1 == |keys| else i == 0)
  {
    if forward then (if i + 1 < |keys| then Some(i + 1) else None)
    else (if i > 0 then Some(i - 1) else None)
  }

  /**
   * `step(forward:end:)` of the node at position `i`: the first node, starting at that one
   * and moving in the given direction, whose key satisfies `end`.
   */
  function StepFrom<K>(keys: seq<K>, i: nat, forward: bool, end: K -> bool): (r: Option<nat>)
    requires i < |keys|
    ensures r.Some? ==> r.value < |keys| && end(keys[r.value])
    ensures r.Some? && forward ==> i <= r.value && forall j :: i <= j < r.value ==> !end(keys[j])
    ensures r.Some? && !forward ==> r.value <= i && forall j :: r.value < j <= i ==> !end(keys[j])
    ensures r.None? && forward ==> forall j :: i <= j < |keys| ==> !end(keys[j])
    ensures r.None? && !forward ==> forall j :: 0 <= j <= i ==> !end(keys[j])
    decreases if forward then |keys| - i else i
  {
    if end(keys[i]) then Some(i)
    else match StepNext(keys, i, forward)
      case Some(j) => StepFrom(keys, j, forward, end)
      case None => None
  }

  /**
   * `destination` of the node at position `i`: itself when `stepsToDestination` is zero,
   * otherwise the destination of `next`.
   */
  function DestinationFrom<K>(keys: seq<K>, i: nat): (r: nat)
    requires i < |keys|
    ensures r == |keys| - 1
    decreases |keys| - i
  {
    if |keys| - 1 - i == 0 then i else DestinationFrom(keys, i + 1)
  }

  /** `origin` of the node at position `i`: itself when `stepsToOrigin` is zero, otherwise the origin of `previous`. */
  function OriginFrom<K>(keys: seq<K>, i: nat): (r: nat)
    requires i < |keys|
    ensures r == 0
    decreases i
  {
    if i == 0 then i else OriginFrom(keys, i - 1)
  }

  class KFTreePath<K> {
    var keys: seq<K>
    var at: nat

    ghost predicate Valid()
      reads this
    {
      at < |keys|
    }

    /** `init(key:next:previous:)` with both links nil. */
    constructor(key: K)
      ensures Valid() && keys == [key] && at == 0
    {
      keys := [key];
      at := 0;
    }

    /** `extend(forward:key:)`: a new node after the destination, or before the origin. */
    method Extend(forward: bool, key: K)
      modifies this
      requires Valid()
      ensures Valid() && keys[at] == old(keys[at])
      ensures forward ==> keys == old(keys) + [key] && at == old(at)
      ensures !forward ==> keys == [key] + old(keys) && at == old(at) + 1
    {
      if forward {
        keys := keys + [key];
      } else {
        keys := [key] + keys;
        at := at + 1;
      }
    }

    /** `calculate(_:)`: `transform` of each pair of adjacent keys, from this node on. */
    method Calculate<U>(transform: (K, K) -> U) returns (result: seq<U>)
      requires Valid()
      ensures |result| == |keys| - at - 1
      ensures forall i :: 0 <= i < |result| ==> result[i] == transform(keys[at + i], keys[at + i + 1])
    {
      result := [];
      var current := at;
      var next := StepNext(keys, current, true);
      while next.Some?
        invariant at <= current < |keys| && next == StepNext(keys, current, true)
        invariant |result| == current - at
        invariant forall i :: 0 <= i < |result| ==> result[i] == transform(keys[at + i], keys[at + i + 1])
        decreases |keys| - current
      {
        result := result + [transform(keys[current], keys[next.value])];
        current := next.value;
        next := StepNext(keys, current, true);
      }
    }

    /** `stepsToDestination` */
    method StepsToDestination() returns (total: nat)
      requires Valid()
      ensures total == |keys| - 1 - at
    {
      total := 0;
      var current := StepNext(keys, at, true);
      while current.Some?
        invariant at + total < |keys|
        invariant current == StepNext(keys, at + total, true)
        decreases |keys| - total
      {
        total := total + 1;
        current := StepNext(keys, current.value, true);
      }
    }

    /** `stepsToOrigin` */
    method StepsToOrigin() returns (total: nat)
      requires Valid()
      ensures total == at
    {
      total := 0;
      var current := StepNext(keys, at, false);
      while current.Some?
        invariant total <= at
        invariant current == StepNext(keys, at - total, false)
        decreases at - total
      {
        total := total + 1;
        current := StepNext(keys, current.value, false);
      }
    }

    /** `endIndex`: this node and every node after it. */
    method EndIndex() returns (length: nat)
      requires Valid()
      ensures length == |keys| - at
    {
      length := 1;
      var current := StepNext(keys, at, true);
      while current.Some?
        invariant 1 <= length && at + length <= |keys|
        invariant current == StepNext(keys, at + length - 1, true)
        decreases |keys| - length
      {
        length := length + 1;
        current := StepNext(keys, current.value, true);
      }
    }

    /**
     * `subscript(i)` as written: counting starts at 1, so indices 0 and 1 both give this
     * node's key and index `i` above 1 gives the key `i - 1` steps on. Any index up to
     * `endIndex` stays on the chain.
     */
    method Subscript(i: int) returns (key: K)
      requires Valid() && i <= |keys| - at
      ensures key == keys[at + (if i <= 1 then 0 else i - 1)]
    {
      var current := at;
      var index := 1;
      while index < i
        invariant 1 <= index && current == at + index - 1 && current < |keys|
        invariant index <= i || index == 1
        decreases i - index
      {
        current := StepNext(keys, current, true).value;
        index := index + 1;
      }
      key := keys[current];
    }

    /** `subscript(i)` counting from 0, so that it agrees with `startIndex` and `endIndex`. */
    method SubscriptFixed(i: nat) returns (key: K)
      requires Valid() && i < |keys| - at
      ensures key == keys[at + i]
    {
      var current := at;
      var index := 0;
      while index < i
        invariant index <= i && current == at + index
        decreases i - index
      {
        current := StepNext(keys, current, true).value;
        index := index + 1;
      }
      key := keys[current];
    }

    /**
     * `for key in path` as written: each call of the generator moves to `next` first and
     * then yields, so this node's own key is never produced.
     */
    method GenerateAsWritten() returns (yielded: seq<K>)
      requires Valid()
      ensures yielded == keys[at + 1..]
    {
      yielded := [];
      var current := at;
      var next := StepNext(keys, current, true);
      while next.Some?
        invariant at <= current < |keys| && next == StepNext(keys, current, true)
        invariant yielded == keys[at + 1..current + 1]
        decreases |keys| - current
      {
        current := next.value;
        yielded := yielded + [keys[current]];
        next := StepNext(keys, current, true);
      }
    }

    /** The generator yielding the current key before it moves on: every key from this node on. */
    method GenerateFixed() returns (yielded: seq<K>)
      requires Valid()
      ensures yielded == keys[at..]
    {
      yielded := [];
      var current := Some(at);
      while current.Some?
        invariant current.Some? ==> at <= current.value < |keys| && yielded == keys[at..current.value]
        invariant current.None? ==> yielded == keys[at..]
        decreases if current.Some? then |keys| - current.value else 0
      {
        yielded := yielded + [keys[current.value]];
        current := StepNext(keys, current.value, true);
      }
    }

    /**
     * `slice(forward:end:)` as written: a new path from this node to the node `step` finds,
     * built by extending with each node passed. The walk stops when it reaches that node,
     * which it never does when that node is this one: then the slice runs on to the end.
     */
    method SliceAsWritten(forward: bool, end: K -> bool) returns (r: Option<KFTreePath<K>>)
      requires Valid()
      ensures r.None? <==> StepFrom(keys, at, forward, end).None?
      ensures r.Some? ==> fresh(r.value) && r.value.Valid() && SliceAsWrittenKeys(keys, at, forward, StepFrom(keys, at, forward, end).value, r.value)
    {
      var destination := StepFrom(keys, at, forward, end);
      if destination.None? {
        return None;
      }
      var first := new KFTreePath(keys[at]);
      if forward {
        WalkForward(keys, at, destination, first);
      } else {
        WalkBackward(keys, at, destination, first);
      }
      return Some(first);
    }

    /** `slice(forward:end:)` returning the one-node path when this node is the one `step` finds. */
    method SliceFixed(forward: bool, end: K -> bool) returns (r: Option<KFTreePath<K>>)
      requires Valid()
      ensures r.None? <==> StepFrom(keys, at, forward, end).None?
      ensures r.Some? ==> fresh(r.value) && r.value.Valid() && SliceKeys(keys, at, forward, StepFrom(keys, at, forward, end).value, r.value)
    {
      var destination := StepFrom(keys, at, forward, end);
      if destination.None? {
        return None;
      }
      var first := new KFTreePath(keys[at]);
      if destination == Some(at) {
        return Some(first);
      }
      if forward {
        WalkForward(keys, at, destination, first);
      } else {
        WalkBackward(keys, at, destination, first);
      }
      return Some(first);
    }
  }

  /** The keys and position of a slice from `at` to `d`: `d`'s end is where the slice stops. */
  ghost predicate SliceKeys<K>(keys: seq<K>, at: nat, forward: bool, d: nat, slice: KFTreePath<K>)
    reads slice
    requires at < |keys| && d < |keys|
  {
    if forward then at <= d && slice.keys == keys[at..d + 1] && slice.at == 0
    else d <= at && slice.keys == keys[d..at + 1] && slice.at == at - d
  }

  /** `SliceKeys`, except that a slice whose end is `at` itself runs to the end of the chain. */
  ghost predicate SliceAsWrittenKeys<K>(keys: seq<K>, at: nat, forward: bool, d: nat, slice: KFTreePath<K>)
    reads slice
    requires at < |keys| && d < |keys|
  {
    if d != at then SliceKeys(keys, at, forward, d, slice)
    else if forward then slice.keys == keys[at..] && slice.at == 0
    else slice.keys == keys[..at + 1] && slice.at == at
  }

  /**
   * The loop of `slice` moving forward: `first` holds the key at `at`, and each node after it
   * is added until the one at `destination`, or until the chain ends.
   */
  method WalkForward<K>(keys: seq<K>, at: nat, destination: Option<nat>, first: KFTreePath<K>)
    modifies first
    requires at < |keys| && destination.Some? && at <= destination.value < |keys|
    requires first.keys == [keys[at]] && first.at == 0
    ensures first.Valid() && first.at == 0
    ensures first.keys == keys[at..if destination.value == at then |keys| else destination.value + 1]
  {
    ghost var d := destination.value;
    var current := StepNext(keys, at, true);
    ghost var j: nat := at + 1;
    while current.Some?
      invariant at < j <= |keys| && (current.Some? <==> j < |keys|) && (current.Some? ==> current.value == j)
      invariant first.Valid() && first.keys == keys[at..j] && first.at == 0
      invariant d > at ==> j <= d
      decreases |keys| - j
    {
      first.Extend(true, keys[current.value]);
      if current == destination {
        return;
      }
      current := StepNext(keys, current.value, true);
      j := j + 1;
    }
  }

  /**
   * The loop of `slice` moving backward: `first` holds the key at `at`, and each node before
   * it is added until the one at `destination`, or until the chain ends.
   */
  method WalkBackward<K>(keys: seq<K>, at: nat, destination: Option<nat>, first: KFTreePath<K>)
    modifies first
    requires at < |keys| && destination.Some? && destination.value <= at
    requires first.keys == [keys[at]] && first.at == 0
    ensures first.Valid()
    ensures var lo := if destination.value == at then 0 else destination.value;
      first.keys == keys[lo..at + 1] && first.at == at - lo
  {
    ghost var d := destination.value;
    var current := StepNext(keys, at, false);
    ghost var lo: nat := at;
    while current.Some?
      invariant lo <= at && (current.Some? <==> lo > 0) && (current.Some? ==> current.value + 1 == lo)
      invariant first.Valid() && first.keys == keys[lo..at + 1] && first.at == at - lo
      invariant d < at ==> lo > d
      decreases lo
    {
      var k := current.value;
      first.Extend(false, keys[k]);
      assert [keys[k]] + keys[lo..at + 1] == keys[k..at + 1];
      lo := k;
      if current == destination {
        return;
      }
      current := StepNext(keys, k, false);
    }
  }

  /** On the path 1 → 2, subscripts 0 and 1 both give 1; counting from 0, subscript 1 is 2. */
  method SubscriptFinding() returns (zero: int, one: int, fixedOne: int)
    ensures zero == 1 && one == 1 && fixedOne == 2
  {
    var path := new KFTreePath(1);
    path.Extend(true, 2);
    zero := path.Subscript(0);
    one := path.Subscript(1);
    fixedOne := path.SubscriptFixed(1);
  }

  /** On the path 1 → 2, iterating yields only 2; the fixed generator yields 1 and 2. */
  method GenerateFinding() returns (asWritten: seq<int>, fixed: seq<int>)
    ensures asWritten == [2] && fixed == [1, 2]
  {
    var path := new KFTreePath(1);
    path.Extend(true, 2);
    asWritten := path.GenerateAsWritten();
    fixed := path.GenerateFixed();
  }

  /**
   * On the path 1 → 2, slicing forward to the first key equal to 1 (the origin itself)
   * gives 1 → 2 as written, and the one-node path 1 when fixed.
   */
  method SliceFinding() returns (asWritten: seq<int>, fixed: seq<int>)
    ensures asWritten == [1, 2] && fixed == [1]
  {
    var path := new KFTreePath(1);
    path.Extend(true, 2);
    var end := (k: int) => k == 1;
    assert StepFrom(path.keys, 0, true, end) == Some(0);
    var a := path.SliceAsWritten(true, end);
    var f := path.SliceFixed(true, end);
    asWritten := a.value.keys;
    fixed := f.value.keys;
  }
}

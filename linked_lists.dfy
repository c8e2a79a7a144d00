/**
 * A singly linked list of heap nodes with `head`, `tail` and `length`
 * fields, and the positional operations that rewire it in place.
 *
 * The abstract view of a list is its spine, the ghost sequence `nodes` of
 * the nodes reachable from `head`, and `contents`, the sequence of their
 * values. The spine is also the list's footprint: methods read and modify
 * `this` and the nodes on it, and nothing else.
 */
module LinkedLists {

  /** The reverse of a sequence, used to specify `Reverse`. */
  function Reversed<U>(s: seq<U>): (r: seq<U>)
    ensures |r| == |s|
    ensures forall k :: 0 <= k < |s| ==> r[k] == s[|s| - 1 - k]
  {
    if s == [] then [] else [s[|s| - 1]] + Reversed(s[..|s| - 1])
  }

  /** Reversing twice gives back the original sequence. */
  lemma ReversedTwice<U>(s: seq<U>)
    ensures Reversed(Reversed(s)) == s
  {
    var r := Reversed(Reversed(s));
    assert |r| == |s|;
    forall k | 0 <= k < |s|
      ensures r[k] == s[k]
    {
      assert r[k] == Reversed(s)[|s| - 1 - k];
    }
  }

  /** Removing position `i` after inserting at `i` gives the sequence back. */
  lemma InsertedThenRemoved<U>(s: seq<U>, i: nat, x: U)
    requires i <= |s|
    ensures var t := s[..i] + [x] + s[i..]; t[..i] + t[i + 1..] == s
  {
    var t := s[..i] + [x] + s[i..];
    assert t[..i] == s[..i];
    assert t[i + 1..] == s[i..];
    assert s[..i] + s[i..] == s;
  }

  /** One cell of the list: a value and a link to its successor. */
  class Node<T> {
    var value: T
    var next: Node?<T>

    constructor (value: T)
      ensures this.value == value && next == null
    {
      this.value := value;
      next := null;
    }
  }

  class SinglyLinkedList<T> {
    var head: Node?<T>
    var tail: Node?<T>
    var length: nat

    /** The nodes reachable from `head`, in order. */
    ghost var nodes: seq<Node<T>>
    /** The values stored in those nodes, in order. */
    ghost var contents: seq<T>

    /**
     * The list invariant. `tail` is constrained only when the list is
     * non-empty: `Shift` empties a list without clearing `tail`.
     */
    ghost predicate Valid()
      reads this, nodes
    {
      length == |nodes| && |contents| == |nodes| &&
      (head == null <==> nodes == []) &&
      (nodes != [] ==>
         head == nodes[0] && tail == nodes[|nodes| - 1] && nodes[|nodes| - 1].next == null) &&
      (forall i :: 0 <= i < |nodes| - 1 ==> nodes[i].next == nodes[i + 1]) &&
      (forall i :: 0 <= i < |nodes| ==> nodes[i].value == contents[i]) &&
      (forall i, j :: 0 <= i < j < |nodes| ==> nodes[i] != nodes[j])
    }

    constructor ()
      ensures Valid()
      ensures head == null && tail == null && length == 0
      ensures nodes == [] && contents == []
    {
      head := null;
      tail := null;
      length := 0;
      nodes := [];
      contents := [];
    }

    /** Appends a new node holding `value` after `tail`. */
    method Push(value: T)
      requires Valid()
      modifies this, nodes
      ensures Valid()
      ensures contents == old(contents) + [value]
      ensures length == old(length) + 1
      ensures tail != null && fresh(tail) && nodes == old(nodes) + [tail]
      ensures head == if old(head) == null then tail else old(head)
    {
      var newNode := new Node(value);
      if head == null {
        head := newNode;
        tail := newNode;
      } else {
        tail.next := newNode;
        tail := newNode;
      }
      length := length + 1;
      nodes := nodes + [newNode];
      contents := contents + [value];
    }

    /**
     * Removes the last node by walking from `head` to the second-to-last
     * node, and returns it; returns null on an empty list.
     */
    method Pop() returns (r: Node?<T>)
      requires Valid()
      modifies this, nodes
      ensures Valid()
      ensures old(length) == 0 ==> r == null && unchanged(this) && unchanged(nodes)
      ensures old(length) > 0 ==>
                r == old(nodes)[old(length) - 1] && r.value == old(contents)[old(length) - 1] &&
                r.next == null &&
                nodes == old(nodes)[..old(length) - 1] &&
                contents == old(contents)[..old(length) - 1] &&
                length == old(length) - 1
      ensures old(length) > 0 && length == 0 ==> head == null && tail == null
      ensures length > 0 ==> head == old(head)
    {
      var current := head;
      var newTail := current;
      if length == 0 {
        return null;
      }
      ghost var k := 0;
      while current.next != null
        invariant 0 <= k < |nodes|
        invariant current == nodes[k]
        invariant current.next == if k < |nodes| - 1 then nodes[k + 1] else null
        invariant newTail == nodes[if k == 0 then 0 else k - 1]
        decreases |nodes| - k
      {
        newTail := current;
        current := current.next;
        k := k + 1;
      }
      tail := newTail;
      tail.next := null;
      length := length - 1;
      if length == 0 {
        head := null;
        tail := null;
      }
      nodes := nodes[..length];
      contents := contents[..length];
      r := current;
    }

    /**
     * Removes the first node and returns it; returns null when `head` is
     * null. `tail` is left as it was, even when the list becomes empty, and
     * the removed node keeps its link to the new head.
     */
    method Shift() returns (r: Node?<T>)
      requires Valid()
      modifies this, nodes
      ensures Valid()
      ensures old(head) == null ==> r == null && unchanged(this) && unchanged(nodes)
      ensures old(head) != null ==>
                r == old(head) && r.value == old(contents)[0] && r.next == head &&
                nodes == old(nodes)[1..] && contents == old(contents)[1..] &&
                length == old(length) - 1
      ensures tail == old(tail)
    {
      if head == null {
        return null;
      }
      var first := head;
      assert |nodes| > 1 ==> first.next == nodes[1];
      head := first.next;
      length := length - 1;
      nodes := nodes[1..];
      contents := contents[1..];
      r := first;
    }

    /** Prepends a new node holding `value` and returns the list itself. */
    method Unshift(value: T) returns (self: SinglyLinkedList<T>)
      requires Valid()
      modifies this, nodes
      ensures Valid() && self == this
      ensures contents == [value] + old(contents)
      ensures length == old(length) + 1
      ensures head != null && fresh(head) && nodes == [head] + old(nodes)
      ensures tail == if old(head) == null then head else old(tail)
    {
      var newHead := new Node(value);
      if head == null {
        head := newHead;
        tail := newHead;
      } else {
        newHead.next := head;
        head := newHead;
      }
      length := length + 1;
      nodes := [newHead] + nodes;
      contents := [value] + contents;
      self := this;
    }

    /** Walks from `head` to the node at `index`; null when out of range. */
    method Get(index: int) returns (r: Node?<T>)
      requires Valid()
      ensures r == null <==> index < 0 || index >= length
      ensures 0 <= index < length ==> r == nodes[index] && r.value == contents[index]
    {
      var current := head;
      var counter := 0;
      if index < 0 || index >= length {
        return null;
      }
      while counter != index
        invariant 0 <= counter <= index
        invariant current == nodes[counter]
        decreases index - counter
      {
        current := current.next;
        counter := counter + 1;
      }
      r := current;
    }

    /**
     * Overwrites the value of the node at `index`; reports false, changing
     * nothing, when `index` is out of range.
     */
    method Set(index: int, value: T) returns (ok: bool)
      requires Valid()
      modifies this, nodes
      ensures Valid()
      ensures ok <==> 0 <= index < old(length)
      ensures contents == if ok then old(contents)[index := value] else old(contents)
      ensures nodes == old(nodes) && head == old(head) && tail == old(tail) && length == old(length)
      ensures forall i :: 0 <= i < |nodes| ==> nodes[i].next == old(nodes[i].next)
    {
      var node := Get(index);
      if node == null {
        return false;
      }
      node.value := value;
      contents := contents[index := value];
      ok := true;
    }

    /**
     * Inserts a new node holding `value` so that it becomes element
     * `index`; reports false, changing nothing, unless `0 <= index <= length`.
     */
    method Insert(index: int, value: T) returns (ok: bool)
      requires Valid()
      modifies this, nodes
      ensures Valid()
      ensures ok <==> 0 <= index <= old(length)
      ensures !ok ==> unchanged(this) && unchanged(nodes)
      ensures ok ==>
                contents == old(contents)[..index] + [value] + old(contents)[index..] &&
                length == old(length) + 1 &&
                fresh(nodes[index]) &&
                nodes == old(nodes)[..index] + [nodes[index]] + old(nodes)[index..]
    {
      if index < 0 || index > length {
        return false;
      } else if index == 0 {
        var _ := Unshift(value);
        return true;
      } else if index == length {
        Push(value);
        return true;
      } else {
        InsertInside(index, value);
        return true;
      }
    }

    /** The general case of `Insert`: a new node between two existing ones. */
    method InsertInside(index: int, value: T)
      requires Valid() && 0 < index < length
      modifies this, nodes
      ensures Valid()
      ensures contents == old(contents)[..index] + [value] + old(contents)[index..]
      ensures length == old(length) + 1
      ensures fresh(nodes[index]) && nodes == old(nodes)[..index] + [nodes[index]] + old(nodes)[index..]
    {
      ghost var s, cs := nodes, contents;
      var node := Get(index - 1);
      var prevNext := node.next;
      assert prevNext == s[index];
      var newNode := new Node(value);
      node.next := newNode;
      newNode.next := prevNext;
      length := length + 1;
      nodes := s[..index] + [newNode] + s[index..];
      contents := cs[..index] + [value] + cs[index..];
      assert forall i :: 0 <= i < index ==> nodes[i] == s[i];
      assert forall i :: index < i < |nodes| ==> nodes[i] == s[i - 1];
      forall i | 0 <= i < |nodes| - 1
        ensures nodes[i].next == nodes[i + 1]
      {
        if i == index - 1 || i == index {
        } else if i < index - 1 {
          assert s[i] != node;
        } else {
          assert s[i - 1] != node;
        }
      }
      forall i | 0 <= i < |nodes|
        ensures nodes[i].value == contents[i]
      {
        if i < index {
          assert contents[i] == cs[i];
        } else if i > index {
          assert contents[i] == cs[i - 1];
        }
      }
      forall i, j | 0 <= i < j < |nodes|
        ensures nodes[i] != nodes[j]
      {
        if j < index {
        } else if i > index {
        }
      }
    }

    /**
     * Unlinks the node at `index` and returns it; returns null, changing
     * nothing, unless `0 <= index < length`. The last position is handed to
     * `Pop` before position 0 is handed to `Shift`, so removing from a
     * one-element list clears both `head` and `tail`.
     */
    method Remove(index: int) returns (r: Node?<T>)
      requires Valid()
      modifies this, nodes
      ensures Valid()
      ensures r == null <==> index < 0 || index >= old(length)
      ensures r == null ==> unchanged(this) && unchanged(nodes)
      ensures r != null ==>
                r == old(nodes)[index] && r.value == old(contents)[index] &&
                nodes == old(nodes)[..index] + old(nodes)[index + 1..] &&
                contents == old(contents)[..index] + old(contents)[index + 1..] &&
                length == old(length) - 1
      ensures r != null && length == 0 ==> head == null && tail == null
      ensures r != null ==> r.next == if index < length then nodes[index] else null
    {
      if index < 0 || index >= length {
        return null;
      } else if index == length - 1 {
        r := Pop();
        assert old(nodes)[..index] + old(nodes)[index + 1..] == old(nodes)[..index];
        assert old(contents)[..index] + old(contents)[index + 1..] == old(contents)[..index];
      } else if index == 0 {
        r := Shift();
      } else {
        r := RemoveInside(index);
      }
    }

    /** The general case of `Remove`: unlinks a node that has neighbours on both sides. */
    method RemoveInside(index: int) returns (r: Node<T>)
      requires Valid() && 0 < index < length - 1
      modifies this, nodes
      ensures Valid()
      ensures r == old(nodes)[index] && r.value == old(contents)[index]
      ensures nodes == old(nodes)[..index] + old(nodes)[index + 1..]
      ensures contents == old(contents)[..index] + old(contents)[index + 1..]
      ensures length == old(length) - 1
      ensures r.next == nodes[index]
    {
      ghost var s, cs := nodes, contents;
      var previousNode := Get(index - 1);
      assert previousNode.next == s[index];
      var removed := previousNode.next;
      assert removed.next == s[index + 1];
      previousNode.next := removed.next;
      length := length - 1;
      nodes := s[..index] + s[index + 1..];
      contents := cs[..index] + cs[index + 1..];
      assert forall i :: 0 <= i < index ==> nodes[i] == s[i];
      assert forall i :: index <= i < |nodes| ==> nodes[i] == s[i + 1];
      forall i | 0 <= i < |nodes| - 1
        ensures nodes[i].next == nodes[i + 1]
      {
        if i == index - 1 {
        } else if i < index - 1 {
          assert s[i] != previousNode;
        } else {
          assert s[i + 1] != previousNode;
        }
      }
      r := removed;
    }

    /**
     * Reverses the list in place: swaps `head` and `tail`, then walks the
     * original order once, pointing each node back at its predecessor.
     */
    method Reverse()
      requires Valid()
      requires length > 0 || tail == null
      modifies this, nodes
      ensures Valid()
      ensures nodes == Reversed(old(nodes)) && contents == Reversed(old(contents))
      ensures length == old(length)
      ensures head == old(tail) && tail == old(head)
      ensures tail != null ==> tail.next == null
    {
      var node := head;
      var prev: Node?<T> := null;
      head := tail;
      tail := node;
      ghost var s := nodes;
      var i := 0;
      while i < length
        invariant 0 <= i <= length == |s|
        invariant nodes == s && contents == old(contents)
        invariant head == old(tail) && tail == old(head)
        invariant node == if i < |s| then s[i] else null
        invariant prev == if i == 0 then null else s[i - 1]
        invariant i > 0 ==> s[0].next == null
        invariant forall k :: 0 < k < i ==> s[k].next == s[k - 1]
        invariant forall k :: i <= k < |s| - 1 ==> s[k].next == s[k + 1]
        invariant i < |s| ==> s[|s| - 1].next == null
        invariant forall k :: 0 <= k < |s| ==> s[k].value == contents[k]
      {
        var next := node.next;
        node.next := prev;
        prev := node;
        node := next;
        i := i + 1;
      }
      nodes := Reversed(s);
      contents := Reversed(contents);
    }
  }

  /** A push immediately undone by a pop returns the pushed node. */
  method PushThenPop<T>(l: SinglyLinkedList<T>, value: T) returns (r: Node?<T>)
    requires l.Valid()
    modifies l, l.nodes
    ensures l.Valid()
    ensures r != null && fresh(r) && r.value == value
    ensures l.contents == old(l.contents) && l.nodes == old(l.nodes) && l.length == old(l.length)
    ensures l.head == old(l.head)
    ensures l.tail == if old(l.length) == 0 then null else old(l.tail)
  {
    l.Push(value);
    r := l.Pop();
  }

  /**
   * An unshift immediately undone by a shift returns the new node; on an
   * empty list `tail` is left pointing at that node.
   */
  method UnshiftThenShift<T>(l: SinglyLinkedList<T>, value: T) returns (r: Node?<T>)
    requires l.Valid()
    modifies l, l.nodes
    ensures l.Valid()
    ensures r != null && fresh(r) && r.value == value
    ensures l.contents == old(l.contents) && l.nodes == old(l.nodes) && l.length == old(l.length)
    ensures l.head == old(l.head)
    ensures l.tail == if old(l.length) == 0 then r else old(l.tail)
  {
    var _ := l.Unshift(value);
    r := l.Shift();
  }

  /** Setting a position and then reading it yields the new value. */
  method SetThenGet<T>(l: SinglyLinkedList<T>, index: int, value: T) returns (r: Node?<T>)
    requires l.Valid() && 0 <= index < l.length
    modifies l, l.nodes
    ensures l.Valid()
    ensures l.contents == old(l.contents)[index := value] && l.nodes == old(l.nodes)
    ensures r != null && r == l.nodes[index] && r.value == value
  {
    var ok := l.Set(index, value);
    r := l.Get(index);
  }

  /** Inserting at a position and then removing it restores the contents. */
  method InsertThenRemove<T>(l: SinglyLinkedList<T>, index: int, value: T) returns (r: Node?<T>)
    requires l.Valid() && 0 <= index <= l.length
    modifies l, l.nodes
    ensures l.Valid()
    ensures r != null && fresh(r) && r.value == value
    ensures l.contents == old(l.contents) && l.nodes == old(l.nodes) && l.length == old(l.length)
  {
    ghost var c0, n0 := l.contents, l.nodes;
    var ok := l.Insert(index, value);
    ghost var n := l.nodes[index];
    r := l.Remove(index);
    InsertedThenRemoved(c0, index, value);
    InsertedThenRemoved(n0, index, n);
  }

  /** Reversing twice restores the spine, `head` and `tail`. */
  method ReverseTwice<T>(l: SinglyLinkedList<T>)
    requires l.Valid() && (l.length > 0 || l.tail == null)
    modifies l, l.nodes
    ensures l.Valid()
    ensures l.nodes == old(l.nodes) && l.contents == old(l.contents)
    ensures l.head == old(l.head) && l.tail == old(l.tail) && l.length == old(l.length)
  {
    l.Reverse();
    l.Reverse();
    ReversedTwice(old(l.nodes));
    ReversedTwice(old(l.contents));
  }

  /**
   * Push 1, 2, 3; insert 9 at position 1; remove position 2 (the value 2);
   * reverse. The list ends as 3, 9, 1.
   */
  method Scenario() returns (l: SinglyLinkedList<int>, removed: int)
    ensures l.Valid() && l.contents == [3, 9, 1]
    ensures removed == 2
  {
    l := new SinglyLinkedList<int>();
    l.Push(1);
    l.Push(2);
    l.Push(3);
    assert l.contents == [1, 2, 3];
    var ok := l.Insert(1, 9);
    assert l.contents == [1, 9, 2, 3];
    var r := l.Remove(2);
    assert r.value == 2 && l.contents == [1, 9, 3];
    removed := r.value;
    l.Reverse();
  }

  /** Reading the scenario's list back position by position. */
  method ScenarioRead() returns (first: int, middle: int, last: int)
    ensures first == 3 && middle == 9 && last == 1
  {
    var l, _ := Scenario();
    var n0 := l.Get(0);
    var n1 := l.Get(1);
    var n2 := l.Get(2);
    first, middle, last := n0.value, n1.value, n2.value;
  }
}

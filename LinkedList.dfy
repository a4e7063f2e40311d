/**
 * A singly-linked list that appends at its tail and removes at its head
 * (src/linked_list.rs).
 *
 * A `LinkedList` keeps the real `head` pointer; the ghost field `nodes` is the chain
 * it owns, head first, and `contents` the elements in the same order. `Chain` ties
 * the two together position by position.
 */
module Lists {
  import opened Wrappers

  /** One link: the element and the rest of the list. */
  class ListNode<T(==)> {
    var element: T
    var next: ListNode?<T>

    /** `ListNode::new`: a node with no successor. */
    constructor (element: T)
      ensures this.element == element && next == null
    {
      this.element := element;
      next := null;
    }

    /** `set_next`: `node` becomes the successor; the element stays. */
    method SetNext(node: ListNode<T>)
      modifies this
      ensures next == node && element == old(element)
    {
      next := node;
    }

    /** `ListNode::contains`: whether this node holds `value`. */
    predicate Contains(value: T)
      reads this
    {
      element == value
    }
  }

  /**
   * `nodes` is the chain that starts at `first` and ends in null, its elements are
   * `items` in the same order, and no node occurs twice.
   */
  ghost predicate Chain<T>(first: ListNode?<T>, nodes: seq<ListNode<T>>, items: seq<T>)
    reads nodes
  {
    && |nodes| == |items|
    && first == (if nodes == [] then null else nodes[0])
    && (forall i :: 0 <= i < |nodes| ==> nodes[i].element == items[i])
    && (forall i :: 0 <= i < |nodes| - 1 ==> nodes[i].next == nodes[i + 1])
    && (nodes != [] ==> nodes[|nodes| - 1].next == null)
    && (forall i, j :: 0 <= i < j < |nodes| ==> nodes[i] != nodes[j])
  }

  /** In a chain, exactly the last node has no successor. */
  lemma LastWithoutNext<T>(first: ListNode?<T>, nodes: seq<ListNode<T>>, items: seq<T>, k: int)
    requires Chain(first, nodes, items) && 0 <= k < |nodes|
    ensures nodes[k].next == null <==> k == |nodes| - 1
  {
    if k < |nodes| - 1 {
      assert nodes[k].next == nodes[k + 1];
    }
  }

  class LinkedList<T(==)> {
    var head: ListNode?<T>
    ghost var nodes: seq<ListNode<T>>
    ghost var contents: seq<T>
    ghost var Repr: set<object>

    ghost predicate Valid()
      reads this, Repr
      ensures Valid() ==> this in Repr
    {
      && this in Repr
      && (forall i :: 0 <= i < |nodes| ==> nodes[i] in Repr)
      && Chain(head, nodes, contents)
    }

    /** `Default::default`, which `LinkedList::new` calls: no head. */
    constructor ()
      ensures Valid() && fresh(Repr)
      ensures contents == [] && head == null
    {
      head := null;
      nodes := [];
      contents := [];
      Repr := {this};
    }

    /** `LinkedList::contains`: walks the chain until a node holds `value`. */
    method Contains(value: T) returns (r: bool)
      requires Valid()
      ensures r <==> value in contents
    {
      var curr := head;
      ghost var k := 0;
      while curr != null
        invariant 0 <= k <= |nodes|
        invariant curr == if k < |nodes| then nodes[k] else null
        invariant value !in contents[..k]
        decreases |nodes| - k
      {
        if curr.Contains(value) {
          return true;
        }
        assert contents[..k + 1] == contents[..k] + [contents[k]];
        curr := curr.next;
        k := k + 1;
      }
      assert contents[..k] == contents;
      return false;
    }

    /**
     * `get_tail`: follows `next` from the head while there is one; the node
     * without a successor is the tail, and an empty list has none.
     */
    method GetTail() returns (tail: ListNode?<T>)
      requires Valid()
      ensures tail == null <==> contents == []
      ensures tail != null ==> tail == nodes[|nodes| - 1]
    {
      var curr := head;
      ghost var k := 0;
      while curr != null
        invariant curr == null ==> nodes == []
        invariant curr != null ==> 0 <= k < |nodes| && curr == nodes[k]
        decreases |nodes| - k
      {
        if curr.next != null {
          curr := curr.next;
          k := k + 1;
        } else {
          break;
        }
      }
      if curr != null {
        LastWithoutNext(head, nodes, contents, k);
      }
      tail := curr;
    }

    /** `push`: the new node becomes the tail's successor, or the head of an empty list. */
    method Push(element: T)
      requires Valid()
      modifies Repr
      ensures Valid() && fresh(Repr - old(Repr))
      ensures contents == old(contents) + [element]
    {
      var tail := GetTail();
      var node := new ListNode(element);
      if tail != null {
        tail.SetNext(node);
      } else {
        head := node;
      }
      nodes := nodes + [node];
      contents := contents + [element];
      Repr := Repr + {node};
    }

    /**
     * `pop`: takes the head, detaches its successor, which becomes the head, and
     * returns the old head's element; None when the list is empty.
     */
    method Pop() returns (r: Option<T>)
      requires Valid()
      modifies Repr
      ensures Valid() && Repr == old(Repr)
      ensures r == if old(contents) == [] then None else Some(old(contents)[0])
      ensures contents == if old(contents) == [] then [] else old(contents)[1..]
    {
      var node := head;
      if node == null {
        return None;
      }
      head := null;
      var next := node.next;
      node.next := null;
      head := next;
      nodes := nodes[1..];
      contents := contents[1..];
      r := Some(node.element);
    }

    /** `Iterator::next` of the list itself is exactly `pop`. */
    method Next() returns (r: Option<T>)
      requires Valid()
      modifies Repr
      ensures Valid() && Repr == old(Repr)
      ensures r == if old(contents) == [] then None else Some(old(contents)[0])
      ensures contents == if old(contents) == [] then [] else old(contents)[1..]
    {
      r := Pop();
    }

    /** Runs the list as its own iterator, as a `for` loop over it does: it yields its elements in push order. */
    method Drain() returns (xs: seq<T>)
      requires Valid()
      modifies Repr
      ensures Valid() && Repr == old(Repr)
      ensures xs == old(contents) && contents == []
    {
      xs := [];
      while true
        invariant Valid() && Repr == old(Repr)
        invariant old(contents) == xs + contents
        decreases |contents|
      {
        ghost var before := contents;
        var r := Next();
        if r == None {
          break;
        }
        assert before == [r.value] + contents;
        xs := xs + [r.value];
      }
    }

    /** `iter`: a cursor on the head; the list is only borrowed. */
    method Iter() returns (it: LinkedListIter<T>)
      requires Valid()
      ensures fresh(it) && it.Valid()
      ensures it.nodes == nodes && it.rest == contents
    {
      it := new LinkedListIter(head, nodes, contents);
    }

    /**
     * `iter_mut`, run to the end by a caller that writes `ys[i]` through the i-th
     * reference it yields: the cursor walks the chain and overwrites every element in
     * place; the links are untouched.
     */
    method IterMut(ys: seq<T>)
      requires Valid() && |ys| == |contents|
      modifies Repr
      ensures Valid() && Repr == old(Repr) && nodes == old(nodes) && head == old(head)
      ensures contents == ys
    {
      var node := head;
      var k := 0;
      while node != null
        invariant 0 <= k <= |nodes|
        invariant nodes == old(nodes) && Repr == old(Repr) && head == old(head) && contents == old(contents)
        invariant node == if k < |nodes| then nodes[k] else null
        invariant forall i :: 0 <= i < |nodes| - 1 ==> nodes[i].next == nodes[i + 1]
        invariant nodes != [] ==> nodes[|nodes| - 1].next == null
        invariant forall i, j :: 0 <= i < j < |nodes| ==> nodes[i] != nodes[j]
        invariant forall i :: 0 <= i < k ==> nodes[i].element == ys[i]
        invariant forall i :: k <= i < |nodes| ==> nodes[i].element == contents[i]
        decreases |nodes| - k
      {
        var current := node;
        node := current.next;
        current.element := ys[k];
        k := k + 1;
      }
      contents := ys;
    }
  }

  /** `LinkedListIter`: the borrowing iterator; `node` is the one it yields next. */
  class LinkedListIter<T(==)> {
    var node: ListNode?<T>
    ghost var nodes: seq<ListNode<T>>
    ghost var rest: seq<T>

    ghost predicate Valid()
      reads this, nodes
    {
      Chain(node, nodes, rest)
    }

    constructor (node: ListNode?<T>, ghost nodes: seq<ListNode<T>>, ghost rest: seq<T>)
      requires Chain(node, nodes, rest)
      ensures Valid() && this.nodes == nodes && this.rest == rest
    {
      this.node := node;
      this.nodes := nodes;
      this.rest := rest;
    }

    /** `Iterator::next`: yields the element under the cursor and moves to its `next`. */
    method Next() returns (r: Option<T>)
      requires Valid()
      modifies this
      ensures Valid()
      ensures r == if old(rest) == [] then None else Some(old(rest)[0])
      ensures rest == if old(rest) == [] then [] else old(rest)[1..]
      ensures nodes == if old(rest) == [] then [] else old(nodes)[1..]
    {
      if node == null {
        r := None;
      } else {
        var current := node;
        node := current.next;
        nodes := nodes[1..];
        rest := rest[1..];
        r := Some(current.element);
      }
    }

    /** Runs the iterator to its end, as a `for` loop does, collecting what it yields. */
    method Collect() returns (xs: seq<T>)
      requires Valid()
      modifies this
      ensures Valid() && xs == old(rest) && rest == []
    {
      xs := [];
      while true
        invariant Valid()
        invariant old(rest) == xs + rest
        decreases |rest|
      {
        var r := Next();
        if r == None {
          break;
        }
        xs := xs + [r.value];
      }
    }
  }

  /** A new list is empty: `pop` returns None and `contains` is false. */
  method EmptyListScenario() returns (first: Option<int>, absent: bool)
    ensures first == None && !absent
  {
    var list := new LinkedList<int>();
    first := list.Pop();
    absent := list.Contains(1);
  }

  /** Pushing 1, 2 and 3 onto a new list appends them in that order. */
  method PushThree() returns (list: LinkedList<int>)
    ensures list.Valid() && fresh(list.Repr)
    ensures list.contents == [1, 2, 3]
  {
    list := new LinkedList<int>();
    list.Push(1);
    list.Push(2);
    list.Push(3);
  }

  /**
   * `iter` over the list of 1, 2, 3 yields them in push order; `contains` finds 2
   * but not 4; `pop` then returns the oldest element.
   */
  method PushedListScenario() returns (seen: seq<int>, present: bool, missing: bool, popped: Option<int>)
    ensures seen == [1, 2, 3] && present && !missing
    ensures popped == Some(1)
  {
    var list := PushThree();
    var it := list.Iter();
    seen := it.Collect();
    present := list.Contains(2);
    missing := list.Contains(4);
    popped := list.Pop();
  }
}

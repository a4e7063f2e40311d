/**
 * An owning singly-linked LIFO chain (src/stack.rs).
 *
 * A `Stack` keeps the real `head` pointer; the ghost field `nodes` is the chain it
 * owns, head first, and `contents` the elements in the same order. `Linked` ties the
 * two together link by link.
 */
module Stacks {
  import opened Wrappers

  /** One link: the element and the rest of the chain. */
  class Node<T> {
    var item: T
    var next: Node?<T>

    constructor (item: T, next: Node?<T>)
      ensures this.item == item && this.next == next
    {
      this.item := item;
      this.next := next;
    }
  }

  /**
   * `nodes` is the chain that starts at `first` and ends in null, its elements are
   * `items` in the same order, and no node occurs twice (each node is outside the
   * rest of the chain).
   */
  ghost predicate Linked<T>(first: Node?<T>, nodes: seq<Node<T>>, items: seq<T>)
    reads nodes
    decreases |nodes|
  {
    if nodes == [] then
      first == null && items == []
    else
      && first == nodes[0] && items != []
      && nodes[0].item == items[0]
      && nodes[0] !in nodes[1..]
      && Linked(nodes[0].next, nodes[1..], items[1..])
  }

  /** The same chain described link by link, by position. */
  ghost predicate Chain<T>(first: Node?<T>, nodes: seq<Node<T>>, items: seq<T>)
    reads nodes
  {
    && |nodes| == |items|
    && first == (if nodes == [] then null else nodes[0])
    && (forall i :: 0 <= i < |nodes| ==> nodes[i].item == items[i])
    && (forall i :: 0 <= i < |nodes| - 1 ==> nodes[i].next == nodes[i + 1])
    && (nodes != [] ==> nodes[|nodes| - 1].next == null)
    && (forall i, j :: 0 <= i < j < |nodes| ==> nodes[i] != nodes[j])
  }

  /** The two descriptions of a chain agree. */
  lemma {:induction false} LinkedIsChain<T>(first: Node?<T>, nodes: seq<Node<T>>, items: seq<T>)
    ensures Linked(first, nodes, items) <==> Chain(first, nodes, items)
    decreases |nodes|
  {
    if nodes != [] && items != [] {
      var ns, xs := nodes[1..], items[1..];
      LinkedIsChain(nodes[0].next, ns, xs);
      if Chain(first, nodes, items) {
        assert |nodes| > 1 ==> nodes[0].next == nodes[1];
        assert nodes[0] !in ns by {
          forall j | 0 <= j < |ns| ensures ns[j] != nodes[0] {
            assert ns[j] == nodes[j + 1];
          }
        }
        assert Chain(nodes[0].next, ns, xs) by {
          forall i | 0 <= i < |ns| - 1 ensures ns[i].next == ns[i + 1] {
            assert ns[i] == nodes[i + 1];
          }
        }
      }
      if Linked(first, nodes, items) {
        assert Chain(nodes[0].next, ns, xs);
        forall i | 0 <= i < |nodes| - 1 ensures nodes[i].next == nodes[i + 1] {
          if i > 0 {
            assert nodes[i] == ns[i - 1];
          }
        }
        forall i, j | 0 <= i < j < |nodes| ensures nodes[i] != nodes[j] {
          if i > 0 {
            assert nodes[i] == ns[i - 1] && nodes[j] == ns[j - 1];
          } else {
            assert nodes[j] == ns[j - 1];
          }
        }
      }
    }
  }

  class Stack<T> {
    var head: Node?<T>
    ghost var nodes: seq<Node<T>>
    ghost var contents: seq<T>
    ghost var Repr: set<object>

    ghost predicate Valid()
      reads this, Repr
      ensures Valid() ==> this in Repr
    {
      && this in Repr
      && (forall n :: n in nodes ==> n in Repr)
      && Linked(head, nodes, contents)
    }

    /** `Stack::new`: no head. */
    constructor ()
      ensures Valid() && fresh(Repr)
      ensures contents == [] && head == null
    {
      head := null;
      nodes := [];
      contents := [];
      Repr := {this};
    }

    /** `empty`: true exactly when there is no element. */
    predicate Empty()
      reads this, Repr
      requires Valid()
      ensures Empty() <==> contents == []
    {
      head == null
    }

    /** `push`: the old chain becomes the new head's `next`. */
    method Push(item: T)
      requires Valid()
      modifies this
      ensures Valid() && fresh(Repr - old(Repr)) && old(Repr) <= Repr
      ensures contents == [item] + old(contents)
    {
      var next := head;
      head := new Node(item, next);
      nodes := [head] + nodes;
      contents := [item] + contents;
      Repr := Repr + {head};
    }

    /** `pop`: the head's element, its `next` becoming the head; None when empty. */
    method Pop() returns (r: Option<T>)
      requires Valid()
      modifies this
      ensures Valid() && Repr == old(Repr)
      ensures r == if old(contents) == [] then None else Some(old(contents)[0])
      ensures contents == if old(contents) == [] then [] else old(contents)[1..]
    {
      var option := head;
      head := null;
      if option != null {
        var item := option.item;
        head := option.next;
        nodes := nodes[1..];
        contents := contents[1..];
        r := Some(item);
      } else {
        r := None;
      }
    }

    /** `peek`: the head's element, if any, without changing anything. */
    function Peek(): (r: Option<T>)
      reads this, Repr
      requires Valid()
      ensures r == None <==> contents == []
      ensures r != None ==> r == Some(contents[0])
    {
      if head == null then None else Some(head.item)
    }

    /**
     * `peek_mut` followed by a write `*r = x` through the reference it returns:
     * only the head element changes, and only when there is one.
     */
    method PeekMut(x: T) returns (found: bool)
      requires Valid()
      modifies Repr
      ensures Valid() && Repr == old(Repr) && nodes == old(nodes) && head == old(head)
      ensures found <==> old(contents) != []
      ensures contents == if found then [x] + old(contents)[1..] else old(contents)
    {
      if head != null {
        head.item := x;
        contents := [x] + contents[1..];
        found := true;
      } else {
        found := false;
      }
    }

    /** `iter`: a cursor on the head; the stack is only borrowed. */
    method Iter() returns (it: Iter<T>)
      requires Valid()
      ensures fresh(it) && it.Valid()
      ensures it.nodes == nodes && it.rest == contents
    {
      it := new Iter(head, nodes, contents);
    }

    /**
     * `iter_mut`, run to the end by a caller that writes `ys[i]` through the i-th
     * reference it yields: the cursor walks the chain and overwrites every element in
     * place; the links are untouched.
     */
    method IterMut(ys: seq<T>)
      requires Valid() && |ys| == |contents|
      modifies Repr
      ensures Valid() && Repr == old(Repr) && nodes == old(nodes) && head == old(head)
      ensures contents == ys
    {
      LinkedIsChain(head, nodes, contents);
      var next := head;
      var k := 0;
      while next != null
        invariant 0 <= k <= |nodes|
        invariant nodes == old(nodes) && Repr == old(Repr) && head == old(head) && contents == old(contents)
        invariant next == if k < |nodes| then nodes[k] else null
        invariant forall i :: 0 <= i < |nodes| - 1 ==> nodes[i].next == nodes[i + 1]
        invariant nodes != [] ==> nodes[|nodes| - 1].next == null
        invariant forall i, j :: 0 <= i < j < |nodes| ==> nodes[i] != nodes[j]
        invariant forall i :: 0 <= i < k ==> nodes[i].item == ys[i]
        invariant forall i :: k <= i < |nodes| ==> nodes[i].item == contents[i]
        decreases |nodes| - k
      {
        var node := next;
        next := node.next;
        node.item := ys[k];
        k := k + 1;
      }
      contents := ys;
      LinkedIsChain(head, nodes, contents);
    }

    /** `into_iter`: the stack itself becomes the iterator. */
    method IntoIter() returns (it: IntoIter<T>)
      requires Valid()
      ensures fresh(it) && it.stack == this
    {
      it := new IntoIter(this);
    }

    /**
     * `Drop`: takes the head and then unlinks the chain one node per iteration,
     * so that no node's teardown recurses into the next. The loop's measure is the
     * length of the chain still linked; at the end every old node is detached.
     */
    method Drop()
      requires Valid()
      modifies Repr
      ensures Valid() && Repr == old(Repr)
      ensures head == null && contents == []
      ensures forall n :: n in old(nodes) ==> n.next == null
    {
      LinkedIsChain(head, nodes, contents);
      var option := head;
      head := null;
      ghost var k := 0;
      while option != null
        invariant 0 <= k <= |nodes|
        invariant nodes == old(nodes) && Repr == old(Repr) && head == null
        invariant option == if k < |nodes| then nodes[k] else null
        invariant forall i :: k <= i < |nodes| - 1 ==> nodes[i].next == nodes[i + 1]
        invariant k < |nodes| ==> nodes[|nodes| - 1].next == null
        invariant forall i, j :: 0 <= i < j < |nodes| ==> nodes[i] != nodes[j]
        invariant forall i :: 0 <= i < k ==> nodes[i].next == null
        decreases |nodes| - k
      {
        var b := option;
        option := b.next;
        b.next := null;
        k := k + 1;
      }
      nodes := [];
      contents := [];
    }
  }

  /** `Iter`: the borrowing iterator; `next` is the node it yields next. */
  class Iter<T> {
    var next: Node?<T>
    ghost var nodes: seq<Node<T>>
    ghost var rest: seq<T>

    ghost predicate Valid()
      reads this, nodes
    {
      Linked(next, nodes, rest)
    }

    constructor (next: Node?<T>, ghost nodes: seq<Node<T>>, ghost rest: seq<T>)
      requires Linked(next, nodes, rest)
      ensures Valid() && this.nodes == nodes && this.rest == rest
    {
      this.next := next;
      this.nodes := nodes;
      this.rest := rest;
    }

    /** `Iterator::next`: yields the element under the cursor and moves to its `next`. */
    method Next() returns (r: Option<T>)
      requires Valid()
      modifies this
      ensures Valid()
      ensures r == if old(rest) == [] then None else Some(old(rest)[0])
      ensures rest == if old(rest) == [] then [] else old(rest)[1..]
      ensures nodes == if old(rest) == [] then [] else old(nodes)[1..]
    {
      if next == null {
        r := None;
      } else {
        var node := next;
        next := node.next;
        nodes := nodes[1..];
        rest := rest[1..];
        r := Some(node.item);
      }
    }

    /** Runs the iterator to its end, as a `for` loop does, collecting what it yields. */
    method Collect() returns (xs: seq<T>)
      requires Valid()
      modifies this
      ensures Valid() && xs == old(rest) && rest == []
    {
      xs := [];
      while true
        invariant Valid()
        invariant old(rest) == xs + rest
        decreases |rest|
      {
        var r := Next();
        if r == None {
          break;
        }
        xs := xs + [r.value];
      }
    }
  }

  /** `IntoIter`: the consuming iterator, which owns the stack it drains. */
  class IntoIter<T> {
    const stack: Stack<T>

    constructor (stack: Stack<T>)
      ensures this.stack == stack
    {
      this.stack := stack;
    }

    /** `Iterator::next` is exactly `pop`. */
    method Next() returns (r: Option<T>)
      requires stack.Valid()
      modifies stack
      ensures stack.Valid() && stack.Repr == old(stack.Repr)
      ensures r == if old(stack.contents) == [] then None else Some(old(stack.contents)[0])
      ensures stack.contents == if old(stack.contents) == [] then [] else old(stack.contents)[1..]
    {
      r := stack.Pop();
    }

    /** Runs the iterator to its end: the old contents, head first, and an empty stack. */
    method Collect() returns (xs: seq<T>)
      requires stack.Valid()
      modifies stack
      ensures stack.Valid() && xs == old(stack.contents) && stack.contents == []
    {
      xs := [];
      while true
        invariant stack.Valid()
        invariant old(stack.contents) == xs + stack.contents
        decreases |stack.contents|
      {
        var r := Next();
        if r == None {
          break;
        }
        xs := xs + [r.value];
      }
    }
  }

  /** A new stack is empty: `empty` holds, and `peek` and `pop` return None. */
  method NewStackScenario() returns (isEmpty: bool, peeked: Option<int>, popped: Option<int>)
    ensures isEmpty && peeked == None && popped == None
  {
    var stack := new Stack<int>();
    isEmpty := stack.Empty();
    peeked := stack.Peek();
    popped := stack.Pop();
  }

  /** `pop` right after `push(x)` returns `x` and restores the stack's contents. */
  method PushThenPop<T>(stack: Stack<T>, x: T) returns (r: Option<T>)
    requires stack.Valid()
    modifies stack.Repr
    ensures stack.Valid() && r == Some(x) && stack.contents == old(stack.contents)
  {
    stack.Push(x);
    r := stack.Pop();
  }

  /**
   * The unit test of src/stack.rs: push 1, peek, write 2 through peek_mut, read it
   * back through iter, write 3 through iter_mut, and drain with into_iter.
   */
  method StackScenario() returns (peeked: Option<int>, seen: seq<int>, drained: seq<int>)
    ensures peeked == Some(1) && seen == [2] && drained == [3]
  {
    var stack := new Stack<int>();
    stack.Push(1);
    peeked := stack.Peek();
    var found := stack.PeekMut(2);
    var it := stack.Iter();
    seen := it.Collect();
    stack.IterMut([3]);
    var into := stack.IntoIter();
    drained := into.Collect();
  }
}

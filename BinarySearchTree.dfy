/**
 * An unbalanced binary search tree keyed by value (src/binary_search_tree.rs).
 *
 * A node is either empty (the root of a new tree) or holds a value and optional
 * left and right subtrees. The ghost `Contents` is the set of values in the subtree
 * and `Repr` its nodes; `Valid` is the search-tree invariant: everything on the left
 * is smaller, everything on the right larger, and no child is empty.
 */
module Trees {
  import opened Wrappers
  import opened Queues

  ghost predicate StrictlyAscending(s: seq<int>)
  {
    forall i, j :: 0 <= i < j < |s| ==> s[i] < s[j]
  }

  /** `r` is the greatest element of `s` strictly below `x`, or None when there is none. */
  ghost predicate IsFloor(s: set<int>, x: int, r: Option<int>)
  {
    match r
    case None => forall y :: y in s ==> x <= y
    case Some(f) => f in s && f < x && forall y :: y in s && y < x ==> y <= f
  }

  /** `r` is the least element of `s` strictly above `x`, or None when there is none. */
  ghost predicate IsCeil(s: set<int>, x: int, r: Option<int>)
  {
    match r
    case None => forall y :: y in s ==> y <= x
    case Some(c) => c in s && x < c && forall y :: y in s && x < y ==> c <= y
  }

  /** `r` is the least element of `s`, or None when `s` is empty. */
  ghost predicate IsMin(s: set<int>, r: Option<int>)
  {
    match r
    case None => s == {}
    case Some(m) => m in s && forall y :: y in s ==> m <= y
  }

  /** `r` is the greatest element of `s`, or None when `s` is empty. */
  ghost predicate IsMax(s: set<int>, r: Option<int>)
  {
    match r
    case None => s == {}
    case Some(m) => m in s && forall y :: y in s ==> y <= m
  }

  /** `Option::or`: `a` when it holds a value, otherwise `b`. */
  function Or(a: Option<int>, b: Option<int>): (r: Option<int>)
    ensures r == a || r == b
    ensures r != None <==> a != None || b != None
    ensures a != None ==> r == a
  {
    if a.Some? then a else b
  }

  /** Joining two ascending runs around a separating value keeps them ascending. */
  lemma AscendingJoin(a: seq<int>, v: int, b: seq<int>)
    requires StrictlyAscending(a) && StrictlyAscending(b)
    requires forall y :: y in a ==> y < v
    requires forall y :: y in b ==> v < y
    ensures StrictlyAscending(a + [v] + b)
  {
    var s := a + [v] + b;
    forall i, j | 0 <= i < j < |s|
      ensures s[i] < s[j]
    {
      if j < |a| {
      } else if j == |a| {
        assert s[i] in a;
      } else if i < |a| {
        assert s[i] in a && s[j] in b;
      } else if i == |a| {
        assert s[j] in b;
      } else {
        assert s[i] == b[i - |a| - 1] && s[j] == b[j - |a| - 1];
      }
    }
  }

  /** Two strictly ascending sequences with the same elements are the same sequence. */
  lemma {:induction false} AscendingUnique(a: seq<int>, b: seq<int>)
    requires StrictlyAscending(a) && StrictlyAscending(b)
    requires forall y :: y in a <==> y in b
    ensures a == b
    decreases |a|
  {
    if a != [] {
      assert a[0] in a;
      assert a[0] in b;
    }
    if b != [] {
      assert b[0] in b;
      assert b[0] in a;
    }
    if a != [] {
      var j :| 0 <= j < |b| && b[j] == a[0];
      var i :| 0 <= i < |a| && a[i] == b[0];
      assert a[0] == b[0];
      forall y
        ensures y in a[1..] <==> y in b[1..]
      {
        if y in a[1..] {
          var k :| 1 <= k < |a| && a[k] == y;
          assert y in b && y != b[0];
        }
        if y in b[1..] {
          var k :| 1 <= k < |b| && b[k] == y;
          assert y in a && y != a[0];
        }
      }
      AscendingUnique(a[1..], b[1..]);
      assert a == [a[0]] + a[1..] && b == [b[0]] + b[1..];
    }
  }

  /** Reassociates the four parts of a traversal: what was there, left subtree, value, right subtree. */
  lemma Regroup(a: seq<int>, b: seq<int>, c: seq<int>, d: seq<int>)
    ensures ((a + b) + c) + d == a + (b + c + d)
  {
  }

  /** A subtree whose nodes are untouched keeps its invariant and its in-order sequence. */
  twostate lemma Untouched(t: BinarySearchTree)
    requires old(t.Valid()) && unchanged(old(t.Repr))
    ensures t.Valid() && t.Repr == old(t.Repr) && t.InOrder() == old(t.InOrder())
  {
  }

  class BinarySearchTree {
    var value: Option<int>
    var left: BinarySearchTree?
    var right: BinarySearchTree?
    ghost var Contents: set<int>
    ghost var Repr: set<object>

    ghost predicate Valid()
      reads this, Repr
      ensures Valid() ==> this in Repr
      decreases Repr
    {
      && this in Repr
      && (value == None ==> left == null && right == null && Contents == {})
      && (left != null ==>
            && left in Repr && left.Repr <= Repr && this !in left.Repr
            && left.Valid() && left.value != None
            && value != None && (forall y :: y in left.Contents ==> y < value.value))
      && (right != null ==>
            && right in Repr && right.Repr <= Repr && this !in right.Repr
            && right.Valid() && right.value != None
            && value != None && (forall y :: y in right.Contents ==> value.value < y))
      && (value != None && left == null && right == null ==> Contents == {value.value})
      && (value != None && left != null && right == null ==> Contents == left.Contents + {value.value})
      && (value != None && left == null && right != null ==> Contents == {value.value} + right.Contents)
      && (value != None && left != null && right != null ==>
            && left.Repr !! right.Repr
            && Contents == left.Contents + {value.value} + right.Contents)
    }

    /** `BinarySearchTree::new`: an empty node. */
    constructor ()
      ensures Valid() && fresh(Repr)
      ensures Contents == {} && value == None && left == null && right == null
    {
      value := None;
      left := null;
      right := null;
      Contents := {};
      Repr := {this};
    }

    /**
     * `insert`: an empty node takes the value; otherwise the value goes to the
     * left side when smaller, to the right side when larger, and a value already
     * present changes nothing.
     */
    method Insert(item: int)
      requires Valid()
      modifies Repr
      ensures Valid() && fresh(Repr - old(Repr))
      ensures Contents == old(Contents) + {item}
      ensures value != None && (old(value) != None ==> value == old(value))
      ensures item in old(Contents) ==> Repr == old(Repr) && unchanged(Repr)
      decreases if value == None then 0 else 1, Repr, 2
    {
      match value {
        case None =>
          value := Some(item);
          Contents := {item};
        case Some(key) =>
          if item < key {
            InsertLeft(item);
          } else if item > key {
            InsertRight(item);
          }
      }
    }

    /** The `item < key` arm of `insert`: the left subtree receives the value. */
    method InsertLeft(item: int)
      requires Valid() && value != None && item < value.value
      modifies Repr
      ensures Valid() && fresh(Repr - old(Repr))
      ensures Contents == old(Contents) + {item} && value == old(value)
      ensures item in old(Contents) ==> Repr == old(Repr) && unchanged(Repr)
      decreases 1, Repr, 1
    {
      assert right == null || right.Valid();
      ghost var present := item in Contents;
      var target := InsertBelow(left, item);
      if left == null {
        left := target;
      }
      if !present {
        Repr := Repr + target.Repr;
        Contents := Contents + {item};
      }
    }

    /** The `item > key` arm of `insert`: the right subtree receives the value. */
    method InsertRight(item: int)
      requires Valid() && value != None && item > value.value
      modifies Repr
      ensures Valid() && fresh(Repr - old(Repr))
      ensures Contents == old(Contents) + {item} && value == old(value)
      ensures item in old(Contents) ==> Repr == old(Repr) && unchanged(Repr)
      decreases 1, Repr, 1
    {
      assert left == null || left.Valid();
      ghost var present := item in Contents;
      var target := InsertBelow(right, item);
      if right == null {
        right := target;
      }
      if !present {
        Repr := Repr + target.Repr;
        Contents := Contents + {item};
      }
    }

    /**
     * The subtree an insertion descends into: a missing one is created as a new
     * tree into which the value is inserted, an existing one receives the value.
     */
    static method InsertBelow(target: BinarySearchTree?, item: int) returns (t: BinarySearchTree)
      requires target != null ==> target.Valid() && target.value != None
      modifies if target == null then {} else target.Repr
      ensures t.Valid() && t.value != None
      ensures target == null ==> fresh(t.Repr) && t.Contents == {item}
      ensures target != null ==> t == target && fresh(t.Repr - old(target.Repr))
      ensures target != null ==> t.Contents == old(target.Contents) + {item}
      ensures target != null && item in old(target.Contents) ==>
                t.Repr == old(target.Repr) && unchanged(t.Repr)
      decreases 1, if target == null then {} else target.Repr, 3
    {
      if target == null {
        var subTree := new BinarySearchTree();
        subTree.Insert(item);
        t := subTree;
      } else {
        target.Insert(item);
        t := target;
      }
    }

    /** `contains`: a search down one path of the tree. */
    function Contains(item: int): (r: bool)
      reads this, Repr
      requires Valid()
      ensures r <==> item in Contents
      decreases Repr
    {
      match value
      case None => false
      case Some(v) =>
        if v == item then true
        else
          var target := if item < v then left else right;
          if target == null then false else target.Contains(item)
    }

    /** `min`: the leftmost value. */
    function Min(): (r: Option<int>)
      reads this, Repr
      requires Valid()
      ensures IsMin(Contents, r)
      decreases Repr
    {
      match value
      case None => None
      case Some(v) =>
        Or(if left == null then None else left.Min(), Some(v))
    }

    /** `max`: the rightmost value. */
    function Max(): (r: Option<int>)
      reads this, Repr
      requires Valid()
      ensures IsMax(Contents, r)
      decreases Repr
    {
      match value
      case None => None
      case Some(v) =>
        Or(if right == null then None else right.Max(), Some(v))
    }

    /**
     * `floor`: a value below `item` is a candidate that a floor found in the right
     * subtree improves on; at a value not below `item`, an exact match included,
     * only the left subtree is searched.
     */
    function Floor(item: int): (r: Option<int>)
      reads this, Repr
      requires Valid()
      ensures IsFloor(Contents, item, r)
      decreases Repr
    {
      match value
      case None => None
      case Some(v) =>
        if item > v then
          if right == null then Some(v)
          else match right.Floor(item)
            case None => Some(v)
            case Some(f) => Some(f)
        else if left == null then None
        else left.Floor(item)
    }

    /** `ceil`: the mirror image of `floor`. */
    function Ceil(item: int): (r: Option<int>)
      reads this, Repr
      requires Valid()
      ensures IsCeil(Contents, item, r)
      decreases Repr
    {
      match value
      case None => None
      case Some(v) =>
        if item < v then
          if left == null then Some(v)
          else match left.Ceil(item)
            case None => Some(v)
            case Some(c) => Some(c)
        else if right == null then None
        else right.Ceil(item)
    }

    /** The order in which `iter_inner` visits the values: left subtree, value, right subtree. */
    ghost function InOrder(): seq<int>
      reads this, Repr
      requires Valid()
      decreases Repr
    {
      var l := if left == null then [] else left.InOrder();
      var r := if right == null then [] else right.InOrder();
      match value
      case None => []
      case Some(v) => l + [v] + r
    }

    /** The in-order sequence is strictly ascending and holds exactly the values of the tree. */
    lemma {:induction false} InOrderSorted()
      requires Valid()
      ensures StrictlyAscending(InOrder())
      ensures forall y :: y in InOrder() <==> y in Contents
      decreases Repr
    {
      if value != None {
        var l := if left == null then [] else left.InOrder();
        var r := if right == null then [] else right.InOrder();
        if left != null {
          left.InOrderSorted();
        }
        if right != null {
          right.InOrderSorted();
        }
        AscendingJoin(l, value.value, r);
      }
    }

    /** `iter_inner`: enqueues the values of the tree in order; the tree is only read. */
    method IterInner(refs: Queue<int>)
      requires Valid() && refs.Valid() && Repr !! refs.Repr
      modifies refs.Repr
      ensures refs.Valid() && fresh(refs.Repr - old(refs.Repr))
      ensures refs.contents == old(refs.contents) + old(InOrder())
      decreases Repr, 1
    {
      ghost var start := refs.contents;
      ghost var leftValues := if left == null then [] else left.InOrder();
      ghost var rightValues := if right == null then [] else right.InOrder();
      ghost var here := if value == None then [] else [value.value];
      assert InOrder() == leftValues + here + rightValues;
      assert right == null || right.Valid();
      IterSubtree(left, refs);
      if value != None {
        refs.Enqueue(value.value);
      }
      assert refs.contents == (start + leftValues) + here;
      assert fresh(refs.Repr - old(refs.Repr));
      ghost var mid := refs.contents;
      assert unchanged(Repr);
      IterSubtree(right, refs);
      assert refs.contents == mid + rightValues;
      Regroup(start, leftValues, here, rightValues);
    }

    /** `if let Some(t) = subtree { t.iter_inner(refs) }` */
    static method IterSubtree(t: BinarySearchTree?, refs: Queue<int>)
      requires t != null ==> t.Valid() && t.Repr !! refs.Repr
      requires refs.Valid()
      modifies refs.Repr
      ensures refs.Valid() && fresh(refs.Repr - old(refs.Repr))
      ensures refs.contents == old(refs.contents) + (if t == null then [] else old(t.InOrder()))
      decreases if t == null then {} else t.Repr, 2
    {
      if t != null {
        t.IterInner(refs);
      }
    }

    /** `iter`: fills a new queue in order and hands it to the iterator. */
    method Iter() returns (it: BinarySearchTreeIterator)
      requires Valid()
      ensures fresh(it) && fresh(it.inner.Repr) && it.inner.Valid()
      ensures it.inner.contents == InOrder()
    {
      var inner := new Queue<int>();
      ghost var expected := InOrder();
      IterInner(inner);
      assert inner.contents == expected;
      Untouched(this);
      it := new BinarySearchTreeIterator(inner);
    }

    /**
     * `into_iter_inner`: the same traversal over a tree that is consumed: the
     * node's subtrees and value are visited in order and the node keeps none of them.
     */
    method IntoIterInner(refs: Queue<int>)
      requires Valid() && refs.Valid() && Repr !! refs.Repr
      modifies Repr, refs.Repr
      ensures refs.Valid() && fresh(refs.Repr - old(refs.Repr))
      ensures refs.contents == old(refs.contents) + old(InOrder())
      ensures value == None && left == null && right == null
      decreases Repr, 1
    {
      ghost var start := refs.contents;
      ghost var leftValues := if left == null then [] else left.InOrder();
      ghost var rightValues := if right == null then [] else right.InOrder();
      ghost var here := if value == None then [] else [value.value];
      assert InOrder() == leftValues + here + rightValues;
      assert right == null || right.Valid();
      IntoIterSubtree(left, refs);
      if value != None {
        refs.Enqueue(value.value);
      }
      assert refs.contents == (start + leftValues) + here;
      assert fresh(refs.Repr - old(refs.Repr));
      if right != null {
        Untouched(right);
      }
      IntoIterSubtree(right, refs);
      Regroup(start, leftValues, here, rightValues);
      assert this !in refs.Repr && fresh(refs.Repr - old(refs.Repr));
      Detach();
    }

    /** The node gives up its value and its subtrees, which have been moved out. */
    method Detach()
      modifies this
      ensures value == None && left == null && right == null
    {
      value, left, right := None, null, null;
    }

    /** `if let Some(t) = subtree { t.into_iter_inner(refs) }` */
    static method IntoIterSubtree(t: BinarySearchTree?, refs: Queue<int>)
      requires t != null ==> t.Valid() && t.Repr !! refs.Repr
      requires refs.Valid()
      modifies refs.Repr, if t == null then {} else t.Repr
      ensures refs.Valid() && fresh(refs.Repr - old(refs.Repr))
      ensures refs.contents == old(refs.contents) + (if t == null then [] else old(t.InOrder()))
      decreases if t == null then {} else t.Repr, 2
    {
      if t != null {
        t.IntoIterInner(refs);
      }
    }

    /** `into_iter`: consumes the tree into a new queue and hands it to the iterator. */
    method IntoIter() returns (it: BinarySearchTreeIterator)
      requires Valid()
      modifies Repr
      ensures fresh(it) && fresh(it.inner.Repr) && it.inner.Valid()
      ensures it.inner.contents == old(InOrder())
      ensures value == None && left == null && right == null
    {
      var inner := new Queue<int>();
      IntoIterInner(inner);
      it := new BinarySearchTreeIterator(inner);
    }
  }

  /** The iterator `iter` and `into_iter` return: a queue filled in order, drained by `next`. */
  class BinarySearchTreeIterator {
    const inner: Queue<int>

    constructor (inner: Queue<int>)
      ensures this.inner == inner
    {
      this.inner := inner;
    }

    /** `Iterator::next` is exactly `Queue::dequeue`. */
    method Next() returns (r: Option<int>)
      requires inner.Valid()
      modifies inner.Repr
      ensures inner.Valid() && fresh(inner.Repr - old(inner.Repr))
      ensures r == if old(inner.contents) == [] then None else Some(old(inner.contents)[0])
      ensures inner.contents == if old(inner.contents) == [] then [] else old(inner.contents)[1..]
    {
      r := inner.Dequeue();
    }

    /** Runs the iterator until it yields None, collecting the values. */
    method Collect() returns (xs: seq<int>)
      requires inner.Valid()
      modifies inner.Repr
      ensures inner.Valid() && fresh(inner.Repr - old(inner.Repr))
      ensures xs == old(inner.contents) && inner.contents == []
    {
      xs := [];
      while true
        invariant inner.Valid() && fresh(inner.Repr - old(inner.Repr))
        invariant old(inner.contents) == xs + inner.contents
        decreases |inner.contents|
      {
        var r := Next();
        if r == None {
          break;
        }
        xs := xs + [r.value];
      }
    }
  }

  /** Inserts the values one after another into a new tree, as the unit tests do. */
  method Build(xs: seq<int>) returns (t: BinarySearchTree)
    ensures t.Valid() && fresh(t.Repr)
    ensures t.Contents == set x | x in xs
  {
    t := new BinarySearchTree();
    var i := 0;
    while i < |xs|
      invariant 0 <= i <= |xs|
      invariant t.Valid() && fresh(t.Repr)
      invariant t.Contents == set x | x in xs[..i]
    {
      t.Insert(xs[i]);
      assert xs[..i + 1] == xs[..i] + [xs[i]];
      i := i + 1;
    }
    assert xs[..i] == xs;
  }

  /** The tree the `iter`, `into_iter`, `min` and `max` tests build. */
  method SmallTree() returns (tree: BinarySearchTree)
    ensures tree.Valid() && fresh(tree.Repr)
    ensures tree.Contents == {0, 1, 13, 45} && tree.InOrder() == [0, 1, 13, 45]
  {
    tree := Build([1, 45, 13, 0]);
    assert tree.Contents == {0, 1, 13, 45} by {
      var xs := [1, 45, 13, 0];
      assert forall y :: y in tree.Contents <==> y in xs;
    }
    tree.InOrderSorted();
    AscendingUnique(tree.InOrder(), [0, 1, 13, 45]);
  }

  /**
   * The `iter` test: `next` yields 0, 1, 13, 45 (collected here by running it until
   * it first yields None) and then None again.
   */
  method IterScenario() returns (yielded: seq<int>, after: Option<int>)
    ensures yielded == [0, 1, 13, 45] && after == None
  {
    var tree := SmallTree();
    var it := tree.Iter();
    yielded := it.Collect();
    after := it.Next();
  }

  /** The `into_iter` test: the consuming iterator yields the same values, then None. */
  method IntoIterScenario() returns (yielded: seq<int>, after: Option<int>)
    ensures yielded == [0, 1, 13, 45] && after == None
  {
    var tree := SmallTree();
    var it := tree.IntoIter();
    yielded := it.Collect();
    after := it.Next();
  }

  /** The second tree of the `floor` and `ceil` tests. */
  method LargerTree() returns (tree: BinarySearchTree)
    ensures tree.Valid() && fresh(tree.Repr)
    ensures tree.Contents == {0, 1, 5, 8, 13, 36, 45, 50}
  {
    tree := Build([13, 45, 50, 36, 5, 1, 0, 8]);
    assert tree.Contents == {0, 1, 5, 8, 13, 36, 45, 50} by {
      var xs := [13, 45, 50, 36, 5, 1, 0, 8];
      assert forall y :: y in tree.Contents <==> y in xs;
    }
  }

  /** The `minimum`, `maximum`, `minimum_on_empty` and `maximum_on_empty` tests. */
  method MinMaxScenario() returns (min: Option<int>, max: Option<int>, emptyMin: Option<int>, emptyMax: Option<int>)
    ensures min == Some(0) && max == Some(45) && emptyMin == None && emptyMax == None
  {
    var tree := SmallTree();
    min := tree.Min();
    max := tree.Max();
    var empty := new BinarySearchTree();
    emptyMin := empty.Min();
    emptyMax := empty.Max();
  }

  /** The first half of the `floor` test: floors of 1, 5 and 100. */
  method FloorScenario() returns (r: seq<Option<int>>)
    ensures r == [Some(0), Some(1), Some(45)]
  {
    var tree := SmallTree();
    r := [tree.Floor(1), tree.Floor(5), tree.Floor(100)];
  }

  /** The first half of the `floor` test, continued: floors of 20 and 0. */
  method FloorScenarioLow() returns (r: seq<Option<int>>)
    ensures r == [Some(13), None]
  {
    var tree := SmallTree();
    r := [tree.Floor(20), tree.Floor(0)];
  }

  /** The first half of the `ceil` test: ceilings of 1, 5, 100, 20 and 0. */
  method CeilScenario() returns (r: seq<Option<int>>)
    ensures r == [Some(13), Some(13), None, Some(45), Some(1)]
  {
    var tree := SmallTree();
    r := [tree.Ceil(1), tree.Ceil(5), tree.Ceil(100), tree.Ceil(20), tree.Ceil(0)];
  }

  /** The second half of the `floor` test, on the larger tree: floors of 13, 100, 46 and 50. */
  method FloorScenarioLarger() returns (r: seq<Option<int>>)
    ensures r == [Some(8), Some(50), Some(45), Some(45)]
  {
    var tree := LargerTree();
    r := [tree.Floor(13), tree.Floor(100), tree.Floor(46), tree.Floor(50)];
  }

  /** The `floor` test, continued: floors of 45, 40, 6 and 5. */
  method FloorScenarioLargerMiddle() returns (r: seq<Option<int>>)
    ensures r == [Some(36), Some(36), Some(5), Some(1)]
  {
    var tree := LargerTree();
    r := [tree.Floor(45), tree.Floor(40), tree.Floor(6), tree.Floor(5)];
  }

  /** The `floor` test, continued: floors of 3, 1 and 10. */
  method FloorScenarioLargerLast() returns (r: seq<Option<int>>)
    ensures r == [Some(1), Some(0), Some(8)]
  {
    var tree := LargerTree();
    r := [tree.Floor(3), tree.Floor(1), tree.Floor(10)];
  }

  /** The second half of the `ceil` test, on the larger tree: ceilings of 13, 100, 46 and 50. */
  method CeilScenarioLarger() returns (r: seq<Option<int>>)
    ensures r == [Some(36), None, Some(50), None]
  {
    var tree := LargerTree();
    r := [tree.Ceil(13), tree.Ceil(100), tree.Ceil(46), tree.Ceil(50)];
  }

  /** The `ceil` test, continued: ceilings of 45, 40, 6 and 5. */
  method CeilScenarioLargerMiddle() returns (r: seq<Option<int>>)
    ensures r == [Some(50), Some(45), Some(8), Some(8)]
  {
    var tree := LargerTree();
    r := [tree.Ceil(45), tree.Ceil(40), tree.Ceil(6), tree.Ceil(5)];
  }

  /** The `ceil` test, continued: ceilings of 3, 1, 10, 0 and -1. */
  method CeilScenarioLargerLast() returns (r: seq<Option<int>>)
    ensures r == [Some(5), Some(5), Some(13), Some(1), Some(0)]
  {
    var tree := LargerTree();
    r := [tree.Ceil(3), tree.Ceil(1), tree.Ceil(10), tree.Ceil(0), tree.Ceil(-1)];
  }

  /** The tree of the `contains_number` test: fourteen insertions, 7 twice. */
  method ContainsTree() returns (tree: BinarySearchTree)
    ensures tree.Valid() && fresh(tree.Repr)
    ensures tree.Contents == {0, 1, 2, 7, 10, 12, 13, 17, 24, 27, 31, 37, 45}
  {
    tree := Build([1, 45, 13, 0, 10, 7, 12, 31, 37, 24, 2, 27, 17, 7]);
    assert tree.Contents == {0, 1, 2, 7, 10, 12, 13, 17, 24, 27, 31, 37, 45} by {
      var xs := [1, 45, 13, 0, 10, 7, 12, 31, 37, 24, 2, 27, 17, 7];
      assert forall y :: y in tree.Contents <==> y in xs;
    }
  }

  /** The `contains_number` test: five values found and five not. */
  method ContainsScenario() returns (hits: seq<bool>, misses: seq<bool>)
    ensures hits == [true, true, true, true, true]
    ensures misses == [false, false, false, false, false]
  {
    var tree := ContainsTree();
    hits := [tree.Contains(1), tree.Contains(12), tree.Contains(0), tree.Contains(7), tree.Contains(31)];
    misses := [tree.Contains(100), tree.Contains(5), tree.Contains(9), tree.Contains(4), tree.Contains(50)];
  }
}

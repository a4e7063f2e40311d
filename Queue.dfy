/**
 * A FIFO queue built from two stacks (src/queue.rs).
 *
 * `enqueue` pushes onto `incoming`; `dequeue` pops `outgoing`, after moving all of
 * `incoming` over when `outgoing` has run dry. The ghost `contents` is the queue
 * oldest first, and `Valid` holds the representation invariant
 * `contents == outgoing.contents + Reverse(incoming.contents)`.
 */
module Queues {
  import opened Wrappers
  import opened Stacks

  /** `s` back to front. */
  function Reverse<T>(s: seq<T>): (r: seq<T>)
    ensures |r| == |s|
  {
    if s == [] then [] else [s[|s| - 1]] + Reverse(s[..|s| - 1])
  }

  /** Reversing puts the position counted from the front at the same distance from the back. */
  lemma {:induction false} ReverseAt<T>(s: seq<T>, k: nat)
    requires k < |s|
    ensures Reverse(s)[k] == s[|s| - 1 - k]
  {
    if k > 0 {
      ReverseAt(s[..|s| - 1], k - 1);
    }
  }

  /** The element pushed last onto `incoming` becomes the last one in the queue. */
  lemma {:induction false} ReversePrepend<T>(x: T, s: seq<T>)
    ensures Reverse([x] + s) == Reverse(s) + [x]
  {
    if s != [] {
      var t := [x] + s;
      assert t[..|t| - 1] == [x] + s[..|s| - 1];
      ReversePrepend(x, s[..|s| - 1]);
    }
  }

  /** Moving one more element across puts it on top of those moved before. */
  lemma ReverseStep<T>(moved: seq<T>, k: nat, start: seq<T>)
    requires k < |moved|
    ensures Reverse(moved[..k + 1]) + start == [moved[k]] + (Reverse(moved[..k]) + start)
  {
    assert moved[..k + 1][..k] == moved[..k];
    assert Reverse(moved[..k + 1]) == [moved[k]] + Reverse(moved[..k]);
  }

  class Queue<T> {
    var incoming: Stack?<T>
    var outgoing: Stack<T>
    ghost var contents: seq<T>
    ghost var Repr: set<object>

    ghost predicate Valid()
      reads this, Repr
      ensures Valid() ==> this in Repr
    {
      && this in Repr
      && incoming != null && incoming in Repr && outgoing in Repr
      && incoming.Repr <= Repr && outgoing.Repr <= Repr
      && this !in incoming.Repr && this !in outgoing.Repr
      && incoming.Repr !! outgoing.Repr
      && incoming.Valid() && outgoing.Valid()
      && contents == outgoing.contents + Reverse(incoming.contents)
    }

    /** `Queue::new`: two empty stacks, `incoming` present. */
    constructor ()
      ensures Valid() && fresh(Repr)
      ensures contents == [] && incoming != null
    {
      incoming := new Stack();
      outgoing := new Stack();
      new;
      contents := [];
      Repr := {this} + incoming.Repr + outgoing.Repr;
    }

    /** `enqueue`: a push onto `incoming`; `outgoing` is left as it was. */
    method Enqueue(item: T)
      requires Valid()
      modifies Repr
      ensures Valid() && fresh(Repr - old(Repr))
      ensures contents == old(contents) + [item]
      ensures incoming == old(incoming) && incoming.contents == [item] + old(incoming.contents)
      ensures outgoing == old(outgoing) && outgoing.contents == old(outgoing.contents)
    {
      ghost var was := incoming.contents;
      incoming.Push(item);
      ReversePrepend(item, was);
      assert (outgoing.contents + Reverse(was)) + [item] == outgoing.contents + (Reverse(was) + [item]);
      contents := contents + [item];
      Repr := Repr + incoming.Repr;
    }

    /**
     * `move_incoming_if_need`: only when `outgoing` is empty and `incoming` is not,
     * every element popped from `incoming` is pushed onto `outgoing`, which leaves
     * the oldest element on top, and `incoming` is replaced by a new empty stack.
     */
    method MoveIncomingIfNeed()
      requires Valid()
      modifies Repr
      ensures Valid() && fresh(Repr - old(Repr))
      ensures contents == old(contents)
      ensures outgoing == old(outgoing)
      ensures if old(outgoing.contents) == [] && old(incoming.contents) != [] then
                outgoing.contents == Reverse(old(incoming.contents)) && incoming.contents == []
              else
                incoming == old(incoming) && incoming.contents == old(incoming.contents)
                && outgoing.contents == old(outgoing.contents)
    {
      var incomingEmpty := if incoming == null then true else incoming.Empty();
      if outgoing.Empty() && !incomingEmpty {
        var list := incoming;
        incoming := null;
        Transfer(list, outgoing);
        incoming := new Stack();
        Repr := Repr + outgoing.Repr + incoming.Repr;
      }
    }

    /**
     * The `for x in list.into_iter() { outgoing.push(x) }` loop: every element popped
     * from `list` is pushed onto `outgoing`, so they end up on it in reverse order.
     */
    static method Transfer(list: Stack<T>, outgoing: Stack<T>)
      requires list.Valid() && outgoing.Valid() && list.Repr !! outgoing.Repr
      modifies list.Repr, outgoing.Repr
      ensures list.Valid() && outgoing.Valid() && list.Repr == old(list.Repr)
      ensures fresh(outgoing.Repr - old(outgoing.Repr))
      ensures list.contents == []
      ensures outgoing.contents == Reverse(old(list.contents)) + old(outgoing.contents)
    {
      ghost var moved := list.contents;
      ghost var start := outgoing.contents;
      ghost var k := 0;
      while true
        invariant list.Valid() && outgoing.Valid()
        invariant list.Repr == old(list.Repr) && fresh(outgoing.Repr - old(outgoing.Repr))
        invariant list.Repr !! outgoing.Repr
        invariant 0 <= k <= |moved|
        invariant list.contents == moved[k..]
        invariant outgoing.contents == Reverse(moved[..k]) + start
        decreases |list.contents|
      {
        var x := list.Pop();
        if x == None {
          break;
        }
        outgoing.Push(x.value);
        ReverseStep(moved, k, start);
        k := k + 1;
      }
      assert moved[..k] == moved;
    }

    /** `dequeue`: the oldest element, or None when the queue is empty. */
    method Dequeue() returns (r: Option<T>)
      requires Valid()
      modifies Repr
      ensures Valid() && fresh(Repr - old(Repr))
      ensures r == if old(contents) == [] then None else Some(old(contents)[0])
      ensures contents == if old(contents) == [] then [] else old(contents)[1..]
    {
      MoveIncomingIfNeed();
      r := outgoing.Pop();
      contents := if contents == [] then [] else contents[1..];
    }
  }

  /** One call on a queue: `enqueue(item)` or `dequeue()`. */
  datatype Op<T> = Enq(item: T) | Deq

  /**
   * A reference FIFO on sequences: what a queue holding `q`, oldest first, answers
   * to the dequeues among `ops`, in order.
   */
  function Answers<T>(q: seq<T>, ops: seq<Op<T>>): seq<Option<T>>
    decreases |ops|
  {
    if ops == [] then []
    else match ops[0]
      case Enq(x) => Answers(q + [x], ops[1..])
      case Deq => if q == [] then [None] + Answers(q, ops[1..]) else [Some(q[0])] + Answers(q[1..], ops[1..])
  }

  /** What the reference FIFO still holds after `ops`. */
  function Left<T>(q: seq<T>, ops: seq<Op<T>>): seq<T>
    decreases |ops|
  {
    if ops == [] then q
    else match ops[0]
      case Enq(x) => Left(q + [x], ops[1..])
      case Deq => Left(if q == [] then q else q[1..], ops[1..])
  }

  /** The items `ops` enqueues, in order. */
  function Enqueued<T>(ops: seq<Op<T>>): seq<T>
  {
    if ops == [] then [] else (if ops[0].Enq? then [ops[0].item] else []) + Enqueued(ops[1..])
  }

  /** The values among `answers`, the absence signals dropped. */
  function Present<T>(answers: seq<Option<T>>): seq<T>
  {
    if answers == [] then [] else (if answers[0].Some? then [answers[0].value] else []) + Present(answers[1..])
  }

  /**
   * The FIFO law: the values dequeued, followed by what is still queued, are exactly
   * what was queued before and what was enqueued since, in the same order; so no
   * value is lost, duplicated or reordered, and the dequeued values are a prefix.
   */
  lemma {:induction false} FifoLaw<T>(q: seq<T>, ops: seq<Op<T>>)
    ensures Present(Answers(q, ops)) + Left(q, ops) == q + Enqueued(ops)
    decreases |ops|
  {
    if ops == [] {
      assert Present(Answers(q, ops)) == [] && Enqueued(ops) == [];
    } else if ops[0].Enq? {
      FifoLaw(q + [ops[0].item], ops[1..]);
      FifoEnq(q, ops);
    } else {
      var q' := if q == [] then q else q[1..];
      FifoLaw(q', ops[1..]);
      FifoDeq(q, ops);
    }
  }

  /** The step of the FIFO law for an enqueue. */
  lemma FifoEnq<T>(q: seq<T>, ops: seq<Op<T>>)
    requires ops != [] && ops[0].Enq?
    requires Present(Answers(q + [ops[0].item], ops[1..])) + Left(q + [ops[0].item], ops[1..])
      == (q + [ops[0].item]) + Enqueued(ops[1..])
    ensures Present(Answers(q, ops)) + Left(q, ops) == q + Enqueued(ops)
  {
    var x, e := ops[0].item, Enqueued(ops[1..]);
    assert Enqueued(ops) == [x] + e;
    assert (q + [x]) + e == q + ([x] + e);
  }

  /** The step of the FIFO law for a dequeue. */
  lemma FifoDeq<T>(q: seq<T>, ops: seq<Op<T>>)
    requires ops != [] && ops[0].Deq?
    requires var q' := if q == [] then q else q[1..];
      Present(Answers(q', ops[1..])) + Left(q', ops[1..]) == q' + Enqueued(ops[1..])
    ensures Present(Answers(q, ops)) + Left(q, ops) == q + Enqueued(ops)
  {
    var rest := ops[1..];
    var e := Enqueued(rest);
    assert Enqueued(ops) == e;
    if q == [] {
      var a := Answers(q, rest);
      calc {
        Present(Answers(q, ops)) + Left(q, ops);
        Present([None] + a) + Left(q, rest);
        { PresentCons(None, a); assert [] + Present(a) == Present(a); }
        Present(a) + Left(q, rest);
        q + e;
      }
    } else {
      var a := Answers(q[1..], rest);
      var p, l := Present(a), Left(q[1..], rest);
      calc {
        Present(Answers(q, ops)) + Left(q, ops);
        Present([Some(q[0])] + a) + l;
        { PresentCons(Some(q[0]), a); }
        ([q[0]] + p) + l;
        { Prepend(q[0], p, l, q[1..], e); }
        ([q[0]] + q[1..]) + e;
        { assert [q[0]] + q[1..] == q; }
        q + e;
      }
    }
  }

  lemma PresentCons<T>(a: Option<T>, s: seq<Option<T>>)
    ensures Present([a] + s) == (if a.Some? then [a.value] else []) + Present(s)
  {
    assert ([a] + s)[1..] == s;
  }

  lemma Prepend<T>(x: T, p: seq<T>, l: seq<T>, t: seq<T>, e: seq<T>)
    requires p + l == t + e
    ensures ([x] + p) + l == ([x] + t) + e
  {
    calc {
      ([x] + p) + l;
      [x] + (p + l);
      [x] + (t + e);
      ([x] + t) + e;
    }
  }

  /** Running `a` and then `b` answers what `a` answers and then what `b` answers from where `a` left off. */
  lemma {:induction false} AnswersAppend<T>(q: seq<T>, a: seq<Op<T>>, b: seq<Op<T>>)
    ensures Answers(q, a + b) == Answers(q, a) + Answers(Left(q, a), b)
    ensures Left(q, a + b) == Left(Left(q, a), b)
    decreases |a|
  {
    if a == [] {
      assert a + b == b;
    } else {
      assert (a + b)[0] == a[0] && (a + b)[1..] == a[1..] + b;
      match a[0]
      case Enq(x) =>
        AnswersAppend(q + [x], a[1..], b);
      case Deq =>
        var q' := if q == [] then q else q[1..];
        AnswersAppend(q', a[1..], b);
        var head := if q == [] then [None] else [Some(q[0])];
        assert Answers(q, a + b) == head + Answers(q', a[1..] + b);
        assert Answers(q, a) == head + Answers(q', a[1..]);
        assert head + (Answers(q', a[1..]) + Answers(Left(q', a[1..]), b))
            == (head + Answers(q', a[1..])) + Answers(Left(q', a[1..]), b);
    }
  }

  /** The four blocks of calls of the unit test of src/queue.rs. */
  function Block(n: nat): seq<Op<int>>
  {
    match n
    case 0 => [Enq(1), Deq, Deq]
    case 1 => [Enq(2), Enq(3), Deq, Deq, Deq]
    case 2 => [Enq(4), Enq(5), Deq]
    case _ => [Enq(6), Enq(7), Deq, Deq, Deq, Deq]
  }

  /** What the reference FIFO answers to each block, starting from where the previous one left off. */
  lemma BlockAnswers()
    ensures Answers([], Block(0)) == [Some(1), None] && Left([], Block(0)) == []
    ensures Answers([], Block(1)) == [Some(2), Some(3), None] && Left([], Block(1)) == []
    ensures Answers([], Block(2)) == [Some(4)] && Left([], Block(2)) == [5]
    ensures Answers([5], Block(3)) == [Some(5), Some(6), Some(7), None] && Left([5], Block(3)) == []
  {
  }

  /** Performs `ops` on `queue`, collecting what its dequeues return. */
  method Replay<T>(queue: Queue<T>, ops: seq<Op<T>>) returns (out: seq<Option<T>>)
    requires queue.Valid()
    modifies queue.Repr
    ensures queue.Valid() && fresh(queue.Repr - old(queue.Repr))
    ensures out == Answers(old(queue.contents), ops)
    ensures queue.contents == Left(old(queue.contents), ops)
  {
    out := [];
    var i := 0;
    while i < |ops|
      invariant 0 <= i <= |ops|
      invariant queue.Valid() && fresh(queue.Repr - old(queue.Repr))
      invariant out + Answers(queue.contents, ops[i..]) == Answers(old(queue.contents), ops)
      invariant Left(queue.contents, ops[i..]) == Left(old(queue.contents), ops)
    {
      ghost var c := queue.contents;
      assert ops[i..][0] == ops[i] && ops[i..][1..] == ops[i + 1..];
      match ops[i] {
        case Enq(x) =>
          queue.Enqueue(x);
          assert Answers(c, ops[i..]) == Answers(queue.contents, ops[i + 1..]);
          assert Left(c, ops[i..]) == Left(queue.contents, ops[i + 1..]);
        case Deq =>
          var r := queue.Dequeue();
          var later := Answers(queue.contents, ops[i + 1..]);
          assert Answers(c, ops[i..]) == [r] + later;
          assert Left(c, ops[i..]) == Left(queue.contents, ops[i + 1..]);
          assert out + ([r] + later) == (out + [r]) + later;
          out := out + [r];
      }
      i := i + 1;
    }
  }

  /** All the calls of the unit test of src/queue.rs, in order. */
  function TestOps(): seq<Op<int>>
  {
    Block(0) + Block(1) + Block(2) + Block(3)
  }

  /** The reference FIFO's answers to the first two blocks of the unit test. */
  lemma FirstTwoBlocks()
    ensures Answers([], Block(0) + Block(1)) == [Some(1), None, Some(2), Some(3), None]
    ensures Left([], Block(0) + Block(1)) == []
  {
    BlockAnswers();
    AnswersAppend([], Block(0), Block(1));
  }

  /** The reference FIFO's answers to the first three blocks of the unit test. */
  lemma FirstThreeBlocks()
    ensures Answers([], Block(0) + Block(1) + Block(2)) == [Some(1), None, Some(2), Some(3), None, Some(4)]
    ensures Left([], Block(0) + Block(1) + Block(2)) == [5]
  {
    FirstTwoBlocks();
    BlockAnswers();
    AnswersAppend([], Block(0) + Block(1), Block(2));
  }

  /** The reference FIFO's answers to the whole unit test, assembled block by block. */
  lemma TestOpsAnswers()
    ensures Answers([], TestOps()) == [Some(1), None, Some(2), Some(3), None, Some(4), Some(5), Some(6), Some(7), None]
  {
    FirstThreeBlocks();
    BlockAnswers();
    AnswersAppend([], Block(0) + Block(1) + Block(2), Block(3));
  }

  /** The unit test of src/queue.rs: ten dequeues interleaved with seven enqueues. */
  method QueueScenario() returns (out: seq<Option<int>>)
    ensures out == [Some(1), None, Some(2), Some(3), None, Some(4), Some(5), Some(6), Some(7), None]
  {
    var queue := new Queue<int>();
    out := Replay(queue, TestOps());
    TestOpsAnswers();
  }
}

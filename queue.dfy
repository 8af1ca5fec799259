/**
 * `HTMQueue`: a FIFO queue kept as a singly linked list from `head` (where
 * `dequeue` pops) to `tail` (where `enqueue` pushes). Every enqueued node is
 * stamped with the queue's 64-bit `global_sn` counter, which then advances
 * by one. A node's persistent payload (value and stamp) is folded into the
 * node itself.
 */
module HtmQueue {
  import opened Optionals

  /** `uint64_t` arithmetic wraps at 2^64. */
  const Word64: int := 0x1_0000_0000_0000_0000

  /** What one node carries: its value and the stamp it was given. */
  datatype Item<T> = Item(val: T, sn: int)

  /** The values of a run of items, front first. */
  function Values<T>(s: seq<Item<T>>): (r: seq<T>)
    ensures |r| == |s|
    ensures forall i | 0 <= i < |s| :: r[i] == s[i].val
  {
    if s == [] then [] else [s[0].val] + Values(s[1..])
  }

  lemma {:induction false} ValuesAppend<T>(s: seq<Item<T>>, t: seq<Item<T>>)
    ensures Values(s + t) == Values(s) + Values(t)
  {
    if s == [] {
      assert s + t == t;
    } else {
      assert (s + t)[1..] == s[1..] + t;
      ValuesAppend(s[1..], t);
    }
  }

  /** The counter after one stamp: `global_sn++` on a `uint64_t`. */
  function NextSn(sn: int): (r: int)
    requires 0 <= sn < Word64
    ensures 0 <= r < Word64
    ensures r == sn + 1 || (sn == Word64 - 1 && r == 0)
  {
    (sn + 1) % Word64
  }

  class Node<T> {
    var next: Node?<T>
    var val: T
    var sn: int

    /** `new Node(this, val)`: an unlinked node with stamp 0. */
    constructor (v: T)
      ensures next == null && val == v && sn == 0
    {
      next := null;
      val := v;
      sn := 0;
    }
  }

  class Queue<T> {
    var globalSn: int
    var head: Node?<T>
    var tail: Node?<T>
    /** The nodes from `head` to `tail`, in list order. */
    ghost var Spine: seq<Node<T>>
    ghost var Repr: set<object>

    /** The queue's contents, front first, and its counter. */
    ghost function State(): QState<T>
      reads this, Spine
    {
      QState(Items(), globalSn)
    }

    /** The queue's contents, front first. */
    ghost function Items(): seq<Item<T>>
      reads this, Spine
    {
      seq(|Spine|, i reads this, Spine requires 0 <= i < |Spine| => Item(Spine[i].val, Spine[i].sn))
    }

    ghost predicate Valid()
      reads this, Repr
    {
      this in Repr && 0 <= globalSn < Word64 &&
      (forall i | 0 <= i < |Spine| :: Spine[i] in Repr) &&
      (forall i, j | 0 <= i < j < |Spine| :: Spine[i] != Spine[j]) &&
      (forall i | 0 <= i < |Spine| - 1 :: Spine[i].next == Spine[i + 1]) &&
      (Spine == [] ==> head == null && tail == null) &&
      (Spine != [] ==> head == Spine[0] && tail == Spine[|Spine| - 1] && tail.next == null)
    }

    /** `head == null` exactly when `tail == null`. */
    lemma EndsAgree()
      requires Valid()
      ensures head == null <==> tail == null
      ensures head == null <==> Items() == []
    {
    }

    /** The constructor: an empty queue whose counter starts at 0. */
    constructor ()
      ensures Valid() && fresh(Repr)
      ensures Items() == [] && globalSn == 0 && head == null && tail == null
    {
      globalSn := 0;
      head := null;
      tail := null;
      Spine := [];
      Repr := {this};
    }

    /** `enqueue`: stamp a new node with the counter, advance the counter,
        and link the node after `tail` (or make it the whole list). */
    method Enqueue(v: T)
      requires Valid()
      modifies this, tail
      ensures Valid() && fresh(Repr - old(Repr))
      ensures Items() == old(Items()) + [Item(v, old(globalSn))]
      ensures globalSn == NextSn(old(globalSn))
      ensures State() == Apply(old(State()), Enq(v)).0
    {
      var node := new Node(v);
      node.sn := globalSn;
      globalSn := NextSn(globalSn);
      if tail == null {
        head, tail := node, node;
      } else {
        tail.next := node;
        tail := node;
      }
      Spine := Spine + [node];
      Repr := Repr + {node};
      assert Items() == old(Items()) + [Item(v, old(globalSn))];
    }

    /** `dequeue`: absent on an empty queue, which is left alone; otherwise
        the head's value, with `head` advanced and `tail` cleared when the
        list empties. */
    method Dequeue() returns (r: Optional<T>)
      requires Valid()
      modifies this
      ensures Valid() && Repr == old(Repr) && globalSn == old(globalSn)
      ensures old(Items()) == [] ==> r == Absent && Items() == [] && head == null && tail == null
      ensures old(Items()) != [] ==> r == Present(old(Items())[0].val) && Items() == old(Items())[1..]
      ensures (State(), r) == Apply(old(State()), Deq)
    {
      if head == null {
        return Absent;
      }
      var tmp := head;
      r := Present(tmp.val);
      head := head.next;
      if head == null {
        tail := null;
      }
      Spine := Spine[1..];
      assert Items() == old(Items())[1..];
    }
  }

  /** What a caller does to the queue: `enqueue(v)` or `dequeue()`. */
  datatype Op<T> = Enq(v: T) | Deq

  /** The abstract state of a queue: its items front first, and the counter. */
  datatype QState<T> = QState(items: seq<Item<T>>, sn: int)

  /** The state after one operation and what a dequeue returns, as
      `Queue.Enqueue` and `Queue.Dequeue` change `Items()` and `globalSn`. */
  function Apply<T>(st: QState<T>, op: Op<T>): (r: (QState<T>, Optional<T>))
    requires 0 <= st.sn < Word64
    ensures 0 <= r.0.sn < Word64
    ensures op.Enq? ==> r.1 == Absent && r.0.items == st.items + [Item(op.v, st.sn)]
    ensures op.Deq? && st.items == [] ==> r == (st, Absent)
    ensures op.Deq? && st.items != [] ==> r == (st.(items := st.items[1..]), Present(st.items[0].val))
  {
    match op
    case Enq(v) => (QState(st.items + [Item(v, st.sn)], NextSn(st.sn)), Absent)
    case Deq => if st.items == [] then (st, Absent) else (st.(items := st.items[1..]), Present(st.items[0].val))
  }

  /** The values the enqueues of a run of operations put in, in order. */
  function Enqueued<T>(ops: seq<Op<T>>): (r: seq<T>)
    ensures |r| <= |ops|
  {
    if ops == [] then []
    else Enqueued(ops[..|ops| - 1]) + (if ops[|ops| - 1].Enq? then [ops[|ops| - 1].v] else [])
  }

  /** The state a new queue reaches after a run of operations, and the
      values its successful dequeues returned, in order. */
  function Run<T>(ops: seq<Op<T>>): (r: (QState<T>, seq<T>))
    ensures 0 <= r.0.sn < Word64
  {
    if ops == [] then (QState([], 0), [])
    else
      var (st, outs) := Run(ops[..|ops| - 1]);
      var (st', o) := Apply(st, ops[|ops| - 1]);
      (st', outs + (if o.Present? then [o.value] else []))
  }

  /** FIFO order: what has come out, followed by what is still queued, is
      exactly what went in, in the same order; nothing is lost, duplicated
      or reordered. */
  lemma {:induction false} FifoOrder<T>(ops: seq<Op<T>>)
    ensures Run(ops).1 + Values(Run(ops).0.items) == Enqueued(ops)
  {
    if ops != [] {
      var init := ops[..|ops| - 1];
      var (st, outs) := Run(init);
      FifoOrder(init);
      var op := ops[|ops| - 1];
      if op.Enq? {
        ValuesAppend(st.items, [Item(op.v, st.sn)]);
      } else if st.items != [] {
        assert st.items == [st.items[0]] + st.items[1..];
        ValuesAppend([st.items[0]], st.items[1..]);
      }
    }
  }

  /** The stamps: the counter has advanced once per enqueue (modulo 2^64),
      and the queued items carry consecutive stamps ending just below it. */
  lemma {:induction false} Stamps<T>(ops: seq<Op<T>>)
    ensures Run(ops).0.sn == |Enqueued(ops)| % Word64
    ensures |Run(ops).0.items| <= |Enqueued(ops)|
    ensures forall k | 0 <= k < |Run(ops).0.items| ::
      Run(ops).0.items[k].sn == (|Enqueued(ops)| - |Run(ops).0.items| + k) % Word64
  {
    if ops != [] {
      var init := ops[..|ops| - 1];
      Stamps(init);
      var st := Run(init).0;
      var n := |Enqueued(init)|;
      var op := ops[|ops| - 1];
      if op.Enq? {
        var items' := st.items + [Item(op.v, st.sn)];
        assert Run(ops).0.items == items';
        forall k | 0 <= k < |items'|
          ensures items'[k].sn == (n + 1 - |items'| + k) % Word64
        {
          if k == |st.items| {
            assert items'[k].sn == st.sn;
          }
        }
      }
    }
  }
}

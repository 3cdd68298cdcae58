/** The linked queue that drops its oldest item when it is full. */
module Queue {
  import opened CString

  /** Sizes and capacities are 16-bit unsigned numbers. */
  const WRAP := 65536

  type uint16 = x: int | 0 <= x < 65536

  /** How many items a queue of capacity `cap` holds at most: one of capacity 0 is full when its size wraps around. */
  function Bound(cap: uint16): nat {
    if cap == 0 then WRAP else cap
  }

  predicate Overflows(items: seq<string>, cap: uint16) {
    |items| == Bound(cap)
  }

  function Pushed(items: seq<string>, cap: uint16, item: string): seq<string> {
    (if Overflows(items, cap) then items[1..] else items) + [item]
  }

  // ---- The code ----

  class QNode {
    const str: string
    var next: QNode?

    constructor (str: string)
      ensures this.str == str && next == null
    {
      this.str := str;
      next := null;
    }
  }

  class Queue {
    const cap: uint16
    var size: uint16
    var front: QNode?
    var rear: QNode?
    ghost var spine: seq<QNode>

    ghost predicate Valid()
      reads this, spine
    {
      && |spine| <= Bound(cap) && size == |spine| % WRAP
      && (forall i, j :: 0 <= i < j < |spine| ==> spine[i] != spine[j])
      && (forall i :: 0 <= i < |spine| - 1 ==> spine[i].next == spine[i + 1])
      && (spine == [] ==> front == null && rear == null)
      && (spine != [] ==> front == spine[0] && rear == spine[|spine| - 1] && spine[|spine| - 1].next == null)
    }

    ghost function Contents(): (r: seq<string>)
      reads this
      ensures |r| == |spine|
    {
      seq(|spine|, i requires 0 <= i < |spine| reads this => spine[i].str)
    }

    /** createQueue. */
    constructor (cap: uint16)
      ensures Valid() && this.cap == cap && Contents() == []
    {
      this.cap := cap;
      size := 0;
      front, rear := null, null;
      spine := [];
    }

    method EnQueue(str: string)
      requires Valid()
      modifies this, spine
      ensures Valid() && Contents() == Pushed(old(Contents()), cap, str)
      ensures forall i :: 0 <= i < |spine| ==> spine[i] in old(spine) || fresh(spine[i])
    {
      var temp := new QNode(str);
      if size == cap {
        ClearQNode();
      }
      Link(temp);
    }

    /** The rest of enQueue: one more item, behind the last node if there is one. */
    method Link(temp: QNode)
      requires Valid() && |spine| < Bound(cap) && temp !in spine && temp.next == null
      modifies this, rear
      ensures Valid() && spine == old(spine) + [temp]
    {
      size := (size + 1) % WRAP;
      if rear == null {
        front := temp;
        rear := temp;
      } else {
        rear.next := temp;
        rear := temp;
      }
      spine := spine + [temp];
    }

    method ReadQNode() returns (r: Option<string>)
      requires Valid()
      ensures r == if Contents() == [] then None else Some(Contents()[0])
    {
      if front == null {
        return None;
      }
      return Some(front.str);
    }

    method ClearQNode()
      requires Valid()
      modifies this
      ensures Valid() && spine == if old(spine) == [] then [] else old(spine)[1..]
      ensures Contents() == if old(Contents()) == [] then [] else old(Contents())[1..]
    {
      if front == null {
        return;
      }
      front := front.next;
      size := (size - 1) % WRAP;
      if front == null {
        rear := null;
      }
      spine := spine[1..];
    }

    method SizeQueue() returns (r: uint16)
      requires Valid()
      ensures r == |Contents()| % WRAP
    {
      return size;
    }

    method DeQueue() returns (r: Option<string>)
      requires Valid()
      modifies this
      ensures Valid() && spine == if old(spine) == [] then [] else old(spine)[1..]
      ensures r == if old(Contents()) == [] then None else Some(old(Contents())[0])
      ensures Contents() == if old(Contents()) == [] then [] else old(Contents())[1..]
    {
      if front == null {
        return None;
      }
      r := Some(front.str);
      front := front.next;
      size := (size - 1) % WRAP;
      if front == null {
        rear := null;
      }
      spine := spine[1..];
    }
  }

  // ---- Whole runs ----

  datatype Operation = EnQueue(item: string) | DeQueue | ClearQNode

  /** An item that has left the queue: taken from its front, or dropped to make room. */
  datatype Exit = Exit(item: string, dropped: bool)

  datatype History = History(entered: seq<string>, left: seq<Exit>, items: seq<string>)

  function After(h: History, cap: uint16, op: Operation): History {
    match op
    case EnQueue(item) =>
      History(h.entered + [item],
              if Overflows(h.items, cap) then h.left + [Exit(h.items[0], true)] else h.left,
              Pushed(h.items, cap, item))
    case _ =>
      if h.items == [] then h else History(h.entered, h.left + [Exit(h.items[0], false)], h.items[1..])
  }

  function Run(cap: uint16, ops: seq<Operation>): History {
    if ops == [] then History([], [], []) else After(Run(cap, ops[..|ops| - 1]), cap, ops[|ops| - 1])
  }

  function Entered(ops: seq<Operation>): seq<string> {
    if ops == [] then []
    else Entered(ops[..|ops| - 1]) + (if ops[|ops| - 1].EnQueue? then [ops[|ops| - 1].item] else [])
  }

  function Items(exits: seq<Exit>): (r: seq<string>)
    ensures |r| == |exits|
    ensures forall i :: 0 <= i < |exits| ==> r[i] == exits[i].item
  {
    seq(|exits|, i requires 0 <= i < |exits| => exits[i].item)
  }

  ghost predicate Conserves(h: History, cap: uint16) {
    && Items(h.left) + h.items == h.entered
    && |h.items| <= Bound(cap)
    && forall i :: 0 <= i < |h.left| && h.left[i].dropped ==> i + Bound(cap) < |h.entered|
  }

  lemma AfterConserves(h: History, cap: uint16, op: Operation)
    requires Conserves(h, cap)
    ensures Conserves(After(h, cap, op), cap)
  {
    var h' := After(h, cap, op);
    if h'.left != h.left {
      assert h.items == [h.items[0]] + h.items[1..];
      assert Items(h'.left) == Items(h.left) + [h.items[0]];
    }
  }

  /**
   * Whatever the operations: what has left the queue, followed by what is in it, is what entered it, in order;
   * it never holds more than its bound; and an item is dropped only after that many later ones have entered.
   */
  lemma {:induction false} NothingIsLost(cap: uint16, ops: seq<Operation>)
    ensures var h := Run(cap, ops);
      && Items(h.left) + h.items == Entered(ops)
      && |h.items| <= Bound(cap)
      && forall i :: 0 <= i < |h.left| && h.left[i].dropped ==> i + Bound(cap) < |Entered(ops)|
  {
    RunConserves(cap, ops);
  }

  lemma {:induction false} RunConserves(cap: uint16, ops: seq<Operation>)
    ensures Conserves(Run(cap, ops), cap) && Run(cap, ops).entered == Entered(ops)
  {
    if ops != [] {
      RunConserves(cap, ops[..|ops| - 1]);
      AfterConserves(Run(cap, ops[..|ops| - 1]), cap, ops[|ops| - 1]);
    }
  }

  function EnQueues(items: seq<string>): seq<Operation> {
    seq(|items|, i requires 0 <= i < |items| => EnQueue(items[i]))
  }

  /** Items that enter while none is taken: the queue holds the last of them, as many as its bound allows. */
  lemma {:induction false} HoldsTheLast(cap: uint16, items: seq<string>)
    ensures Run(cap, EnQueues(items)).items
      == if |items| <= Bound(cap) then items else items[|items| - Bound(cap)..]
  {
    if items != [] {
      var n := |items| - 1;
      HoldsTheLast(cap, items[..n]);
      assert EnQueues(items)[..n] == EnQueues(items[..n]);
      assert items == items[..n] + [items[n]];
    }
  }

  /** The bound is reached: a queue of capacity 0 comes to hold 65536 items. */
  lemma CapacityZeroHolds65536(item: string)
    ensures |Run(0, EnQueues(seq(65536, _ => item))).items| == 65536
  {
    HoldsTheLast(0, seq(65536, _ => item));
  }
}

/** The doubly linked list of 1_concepts/src/main.rs. Nodes live in an arena
    `nodes`; an index into it stands for an `Arc<Mutex<Node<T>>>` pointer, and
    a node that is no longer linked stays in the arena as garbage (the `Arc`
    would have dropped it). */
module LinkedList {
  import opened Base
  import opened Text

  datatype Node<T> = Node(data: T, next: Option<nat>, prev: Option<nat>)

  datatype DoublyLinkedList<T> = DoublyLinkedList(nodes: seq<Node<T>>, head: Option<nat>, tail: Option<nat>)

  predicate InRange(p: Option<nat>, n: nat)
  {
    p.Some? ==> p.value < n
  }

  /** Every pointer refers to a node of the arena, as an `Arc` always does. */
  predicate WellFormed<T>(l: DoublyLinkedList<T>)
  {
    && InRange(l.head, |l.nodes|)
    && InRange(l.tail, |l.nodes|)
    && forall i | 0 <= i < |l.nodes| :: InRange(l.nodes[i].next, |l.nodes|) && InRange(l.nodes[i].prev, |l.nodes|)
  }

  /** `order` is the chain of nodes from `head` to `tail`: distinct nodes, each
      `next` pointing at its successor and each `prev` at its predecessor, the
      first with no `prev` and the last with no `next`. */
  ghost predicate Chain<T>(l: DoublyLinkedList<T>, order: seq<nat>)
  {
    && WellFormed(l)
    && (forall k | 0 <= k < |order| :: order[k] < |l.nodes|)
    && (forall j, k | 0 <= j < k < |order| :: order[j] != order[k])
    && (|order| == 0 ==> l.head.None? && l.tail.None?)
    && (|order| > 0 ==> l.head == Some(order[0]) && l.tail == Some(order[|order| - 1]))
    && (forall k | 0 <= k < |order| ::
          l.nodes[order[k]].next == (if k + 1 < |order| then Some(order[k + 1]) else None))
    && (forall k | 0 <= k < |order| ::
          l.nodes[order[k]].prev == (if k > 0 then Some(order[k - 1]) else None))
  }

  /** The links of the `k`-th node of a chain. */
  lemma ChainAt<T>(l: DoublyLinkedList<T>, order: seq<nat>, k: nat)
    requires Chain(l, order) && k < |order|
    ensures l.nodes[order[k]].next == (if k + 1 < |order| then Some(order[k + 1]) else None)
    ensures l.nodes[order[k]].prev == (if k > 0 then Some(order[k - 1]) else None)
  {
  }

  /** The elements along a chain, front to back. */
  function Contents<T>(l: DoublyLinkedList<T>, order: seq<nat>): (s: seq<T>)
    requires forall k | 0 <= k < |order| :: order[k] < |l.nodes|
    ensures |s| == |order|
  {
    seq(|order|, k requires 0 <= k < |order| => l.nodes[order[k]].data)
  }

  /** A chained list is empty at both ends or at neither. */
  lemma HeadNoneIffTailNone<T>(l: DoublyLinkedList<T>, order: seq<nat>)
    requires Chain(l, order)
    ensures l.head.None? <==> l.tail.None?
    ensures l.head.None? <==> |order| == 0
  {
  }

  /** `DoublyLinkedList::new`. */
  function New<T>(): (l: DoublyLinkedList<T>)
    ensures l.head.None? && l.tail.None?
    ensures Chain(l, []) && Contents(l, []) == []
  {
    DoublyLinkedList([], None, None)
  }

  /** `DoublyLinkedList::push_back`: a new node is allocated; a non-empty list
      links it after the old tail, an empty one makes it the head; either
      way it becomes the tail. */
  function PushBack<T>(l: DoublyLinkedList<T>, data: T): (r: DoublyLinkedList<T>)
    requires WellFormed(l)
    ensures WellFormed(r)
  {
    var slot := |l.nodes|;
    match l.tail
    case Some(t) =>
      var nodes := l.nodes[t := l.nodes[t].(next := Some(slot))] + [Node(data, None, Some(t))];
      DoublyLinkedList(nodes, l.head, Some(slot))
    case None =>
      DoublyLinkedList(l.nodes + [Node(data, None, None)], Some(slot), Some(slot))
  }

  /** `push_back(x)` appends `x` to the contents; on an empty list the new
      node is both head and tail. */
  lemma PushBackAppends<T>(l: DoublyLinkedList<T>, order: seq<nat>, data: T)
    requires Chain(l, order)
    ensures Chain(PushBack(l, data), order + [|l.nodes|])
    ensures Contents(PushBack(l, data), order + [|l.nodes|]) == Contents(l, order) + [data]
    ensures |order| == 0 ==> PushBack(l, data).head == PushBack(l, data).tail == Some(|l.nodes|)
  {
    if |order| == 0 {
      assert order + [|l.nodes|] == [|l.nodes|];
    } else {
      PushAfterTail(l, order, data);
    }
    PushBackContents(l, order, data);
  }

  /** Pushing onto a non-empty chain links the new node after the old tail. */
  lemma PushAfterTail<T>(l: DoublyLinkedList<T>, order: seq<nat>, data: T)
    requires Chain(l, order) && |order| > 0
    ensures Chain(PushBack(l, data), order + [|l.nodes|])
  {
    var r := PushBack(l, data);
    var o: seq<nat> := order + [|l.nodes|];
    forall k | 0 <= k < |o|
      ensures r.nodes[o[k]].next == (if k + 1 < |o| then Some(o[k + 1]) else None)
    {
      PushedLinksAt(l, order, data, k);
    }
    forall k | 0 <= k < |o|
      ensures r.nodes[o[k]].prev == (if k > 0 then Some(o[k - 1]) else None)
    {
      PushedLinksAt(l, order, data, k);
    }
    forall j, k | 0 <= j < k < |o|
      ensures o[j] != o[k]
    {
      assert o[j] == order[j];
    }
    assert Chain(r, o);
  }

  /** The links of the `k`-th node after a push onto a non-empty chain. */
  lemma PushedLinksAt<T>(l: DoublyLinkedList<T>, order: seq<nat>, data: T, k: nat)
    requires Chain(l, order) && |order| > 0 && k <= |order|
    ensures var r, o := PushBack(l, data), order + [|l.nodes|];
      && r.nodes[o[k]].next == (if k + 1 < |o| then Some(o[k + 1]) else None)
      && r.nodes[o[k]].prev == (if k > 0 then Some(o[k - 1]) else None)
  {
    var r := PushBack(l, data);
    var slot := |l.nodes|;
    var o := order + [slot];
    var t := order[|order| - 1];
    assert r.nodes == l.nodes[t := l.nodes[t].(next := Some(slot))] + [Node(data, None, Some(t))];
    if k < |order| {
      ChainAt(l, order, k);
      assert o[k] == order[k];
      if k < |order| - 1 {
        assert order[k] != t;
        assert o[k + 1] == order[k + 1];
        assert r.nodes[o[k]] == l.nodes[order[k]];
      }
      if k > 0 {
        assert o[k - 1] == order[k - 1];
      }
    }
  }

  /** The pushed element comes last, after the old contents. */
  lemma PushBackContents<T>(l: DoublyLinkedList<T>, order: seq<nat>, data: T)
    requires Chain(l, order)
    ensures forall k | 0 <= k < |order| + 1 :: (order + [|l.nodes|])[k] < |PushBack(l, data).nodes|
    ensures Contents(PushBack(l, data), order + [|l.nodes|]) == Contents(l, order) + [data]
  {
    var r := PushBack(l, data);
    var o := order + [|l.nodes|];
    assert |r.nodes| == |l.nodes| + 1;
    forall k | 0 <= k < |o|
      ensures o[k] < |r.nodes|
      ensures r.nodes[o[k]].data == (Contents(l, order) + [data])[k]
    {
      if k < |order| {
        assert o[k] == order[k];
      }
    }
  }

  /** `DoublyLinkedList::pop_front`: the head is taken; if it has a successor,
      that node loses its `prev` and becomes the head, otherwise the tail is
      cleared too. */
  function PopFront<T>(l: DoublyLinkedList<T>): (r: (DoublyLinkedList<T>, Option<T>))
    requires WellFormed(l)
    ensures WellFormed(r.0)
    ensures l.head.None? <==> r.1.None?
  {
    match l.head
    case None => (l, None)
    case Some(h) =>
      var node := l.nodes[h];
      match node.next
      case Some(newHead) =>
        var nodes := l.nodes[newHead := l.nodes[newHead].(prev := None)];
        (DoublyLinkedList(nodes, Some(newHead), l.tail), Some(node.data))
      case None =>
        (DoublyLinkedList(l.nodes, None, None), Some(node.data))
  }

  /** `pop_front` on an empty list returns `None` and changes nothing; on a
      non-empty one it returns the first element and leaves the rest, with the
      new head's `prev` cleared and, when the last element goes, the tail
      cleared as well. */
  lemma PopFrontRemovesFirst<T>(l: DoublyLinkedList<T>, order: seq<nat>)
    requires Chain(l, order)
    ensures |order| == 0 ==> PopFront(l) == (l, None)
    ensures |order| > 0 ==>
      && PopFront(l).1 == Some(Contents(l, order)[0])
      && Chain(PopFront(l).0, order[1..])
      && Contents(PopFront(l).0, order[1..]) == Contents(l, order)[1..]
  {
    if |order| == 1 {
      ChainAt(l, order, 0);
    } else if |order| > 1 {
      ChainAt(l, order, 0);
      PopKeepsChain(l, order);
    }
  }

  lemma PopKeepsChain<T>(l: DoublyLinkedList<T>, order: seq<nat>)
    requires Chain(l, order) && |order| > 1
    ensures var second := order[1];
      Chain(DoublyLinkedList(l.nodes[second := l.nodes[second].(prev := None)], Some(second), l.tail), order[1..])
  {
    var second := order[1];
    var r := DoublyLinkedList(l.nodes[second := l.nodes[second].(prev := None)], Some(second), l.tail);
    var rest := order[1..];
    assert WellFormed(r);
    assert forall k | 0 <= k < |rest| :: rest[k] == order[k + 1];
    assert forall j, k | 0 <= j < k < |rest| :: rest[j] != rest[k];
    forall k | 0 <= k < |rest|
      ensures r.nodes[rest[k]].next == (if k + 1 < |rest| then Some(rest[k + 1]) else None)
      ensures r.nodes[rest[k]].prev == (if k > 0 then Some(rest[k - 1]) else None)
    {
      ChainAt(l, order, k + 1);
      if k > 0 {
        assert rest[k] != second;
      }
    }
    assert forall k | 0 <= k < |rest| :: rest[k] < |r.nodes|;
    assert r.head == Some(rest[0]) && r.tail == Some(rest[|rest| - 1]);
    assert Chain(r, rest);
  }

  /** After `pop_front` no pointer of the list refers to the popped node any
      more, so `Arc::into_inner(head_arc).unwrap()` cannot fail. */
  lemma PopFrontReleasesNode<T>(l: DoublyLinkedList<T>, order: seq<nat>)
    requires Chain(l, order) && |order| > 0
    ensures var r := PopFront(l).0;
      && r.head != Some(order[0]) && r.tail != Some(order[0])
      && forall k | 1 <= k < |order| ::
           r.nodes[order[k]].next != Some(order[0]) && r.nodes[order[k]].prev != Some(order[0])
  {
    PopFrontRemovesFirst(l, order);
    var r := PopFront(l).0;
    var rest := order[1..];
    assert forall k | 1 <= k < |order| :: order[k] == rest[k - 1];
    forall k | 1 <= k < |order|
      ensures r.nodes[order[k]].next != Some(order[0]) && r.nodes[order[k]].prev != Some(order[0])
    {
      ChainAt(r, rest, k - 1);
      assert r.nodes[rest[k - 1]].next == (if k < |rest| then Some(rest[k]) else None);
      assert r.nodes[rest[k - 1]].prev == (if k > 1 then Some(rest[k - 2]) else None);
    }
  }

  // ---------------------------------------------------------------------------
  // Display
  // ---------------------------------------------------------------------------

  /** `parts` joined with `sep` between neighbours. */
  function Join(parts: seq<string>, sep: string): string
  {
    if |parts| == 0 then ""
    else if |parts| == 1 then parts[0]
    else parts[0] + sep + Join(parts[1..], sep)
  }

  function MapShow<T>(xs: seq<T>, show: T -> string): (r: seq<string>)
    ensures |r| == |xs|
    ensures forall i | 0 <= i < |xs| :: r[i] == show(xs[i])
  {
    seq(|xs|, i requires 0 <= i < |xs| => show(xs[i]))
  }

  /** The `while let Some(node) = current` loop of `fmt`: the node's data,
      then " <-> " when a next node follows. `unseen` only guards termination:
      a node already printed ends the walk, which a chained list never hits. */
  function Walk<T>(nodes: seq<Node<T>>, current: Option<nat>, unseen: set<nat>, show: T -> string): string
    decreases unseen
  {
    match current
    case None => ""
    case Some(i) =>
      if i !in unseen || i >= |nodes| then ""
      else
        var node := nodes[i];
        show(node.data) + (if node.next.Some? then " <-> " else "")
          + Walk(nodes, node.next, unseen - {i}, show)
  }

  /** The arena indices `0..n`. */
  function Slots(n: nat): (s: set<nat>)
    ensures forall i: nat :: i in s <==> i < n
  {
    if n == 0 then {} else Slots(n - 1) + {n - 1}
  }

  /** `impl Display for DoublyLinkedList`. */
  function Display<T>(l: DoublyLinkedList<T>, show: T -> string): string
  {
    "DoublyLinkedList: [" + Walk(l.nodes, l.head, Slots(|l.nodes|), show) + "]"
  }

  lemma {:induction false} WalkFollowsChain<T>(l: DoublyLinkedList<T>, order: seq<nat>, k: nat, unseen: set<nat>, show: T -> string)
    requires Chain(l, order) && k < |order|
    requires forall j | k <= j < |order| :: order[j] in unseen
    ensures Walk(l.nodes, Some(order[k]), unseen, show) == Join(MapShow(Contents(l, order)[k..], show), " <-> ")
    decreases |order| - k
  {
    var i := order[k];
    var node := l.nodes[i];
    var items := MapShow(Contents(l, order)[k..], show);
    assert items[0] == show(node.data);
    var rest := Walk(l.nodes, node.next, unseen - {i}, show);
    assert Walk(l.nodes, Some(i), unseen, show)
      == show(node.data) + (if node.next.Some? then " <-> " else "") + rest;
    if k + 1 < |order| {
      assert node.next == Some(order[k + 1]);
      assert forall j | k + 1 <= j < |order| :: order[j] != i;
      WalkFollowsChain(l, order, k + 1, unseen - {i}, show);
      assert items[1..] == MapShow(Contents(l, order)[k + 1..], show);
    } else {
      ChainAt(l, order, k);
      assert |items| == 1;
    }
  }

  /** `Display` prints the contents front to back, joined by " <-> ". */
  lemma DisplayShowsContents<T>(l: DoublyLinkedList<T>, order: seq<nat>, show: T -> string)
    requires Chain(l, order)
    ensures Display(l, show) == "DoublyLinkedList: [" + Join(MapShow(Contents(l, order), show), " <-> ") + "]"
  {
    if |order| > 0 {
      WalkFollowsChain(l, order, 0, Slots(|l.nodes|), show);
      assert Contents(l, order)[0..] == Contents(l, order);
    }
  }

  /** The run in `main`: after pushing 1, 2 and 3 and popping once, the
      popped value is 1 and the list prints as "DoublyLinkedList: [2 <-> 3]". */
  lemma MainRun()
    ensures var l := PushBack(PushBack(PushBack(New<int>(), 1), 2), 3);
      && PopFront(l).1 == Some(1)
      && Display(PopFront(l).0, IntToString) == "DoublyLinkedList: [2 <-> 3]"
  {
    PushOneTwoThree();
    PopOneFromOneTwoThree(PushBack(PushBack(PushBack(New<int>(), 1), 2), 3));
  }

  /** Popping from any chain holding 1, 2, 3 gives 1 and leaves "2 <-> 3". */
  lemma PopOneFromOneTwoThree(l3: DoublyLinkedList<int>)
    requires Chain(l3, [0, 1, 2]) && Contents(l3, [0, 1, 2]) == [1, 2, 3]
    ensures PopFront(l3).1 == Some(1)
    ensures Display(PopFront(l3).0, IntToString) == "DoublyLinkedList: [2 <-> 3]"
  {
    PopFrontRemovesFirst(l3, [0, 1, 2]);
    var l4 := PopFront(l3).0;
    assert [0, 1, 2][1..] == [1, 2];
    assert Contents(l4, [1, 2]) == Contents(l3, [0, 1, 2])[1..] == [2, 3];
    DisplayShowsContents(l4, [1, 2], IntToString);
    ShowTwoThree();
  }

  lemma PushOneTwoThree()
    ensures var l := PushBack(PushBack(PushBack(New<int>(), 1), 2), 3);
      Chain(l, [0, 1, 2]) && Contents(l, [0, 1, 2]) == [1, 2, 3]
  {
    var l0 := New<int>();
    var l1 := PushBack(l0, 1);
    PushBackAppends(l0, [], 1);
    assert [] + [0] == [0];
    var l2 := PushBack(l1, 2);
    PushBackAppends(l1, [0], 2);
    assert [0] + [1] == [0, 1];
    PushBackAppends(l2, [0, 1], 3);
    assert [0, 1] + [2] == [0, 1, 2];
  }

  lemma ShowTwoThree()
    ensures Join(MapShow([2, 3], IntToString), " <-> ") == "2 <-> 3"
  {
    assert IntToString(2) == [DigitChar(2)] == "2";
    assert IntToString(3) == [DigitChar(3)] == "3";
    var shown := MapShow([2, 3], IntToString);
    assert shown == ["2", "3"];
  }
}

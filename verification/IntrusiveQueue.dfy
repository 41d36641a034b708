/** The doubly linked FIFO queue whose links live inside its items.  Many queues share one store. */
module IntrusiveQueues {
  import opened Basics
  import opened MemPools
  import opened Orders

  datatype Header = Header(head: Option<nat>, tail: Option<nat>, size: nat)

  const EMPTY: Header := Header(None, None, 0)

  function NodeAt(items: seq<nat>, i: nat): Node
    requires i < |items|
  {
    Node(
      if i + 1 < |items| then Some(items[i + 1]) else None,
      if i > 0 then Some(items[i - 1]) else None)
  }

  function HeaderOf(items: seq<nat>): Header {
    if items == [] then EMPTY else Header(Some(items[0]), Some(items[|items| - 1]), |items|)
  }

  ghost predicate Linked(cells: Cells, items: seq<nat>, i: nat)
    requires i < |items|
  {
    IsLive(cells, items[i]) && At(cells, items[i]).listNode == NodeAt(items, i)
  }

  /** The header and the links in both directions spell out `items`, head first. */
  ghost predicate ListRep(cells: Cells, h: Header, items: seq<nat>) {
    && h == HeaderOf(items)
    && forall i: nat :: i < |items| ==> Linked(cells, items, i)
  }

  /** From `cells` to `cells'` only links changed, and only links of the slots in `touched`. */
  ghost predicate LinksOnly(cells: Cells, cells': Cells, touched: seq<nat>) {
    && |cells'| == |cells|
    && (forall i: nat :: i < |cells| && i !in touched ==> cells'[i] == cells[i])
    && (forall i: nat :: i < |cells| ==> cells'[i].isFree == cells[i].isFree && (IsLive(cells', i) <==> IsLive(cells, i)))
    && (forall i: nat :: IsLive(cells, i) && IsLive(cells', i) ==> Payload(At(cells', i)) == Payload(At(cells, i)))
  }

  /** No item stands in a queue twice: following `prev` from both places would reach the head and
      a successor of the head at the same time. */
  lemma ListIsAcyclic(cells: Cells, h: Header, items: seq<nat>)
    requires ListRep(cells, h, items)
    ensures Distinct(items)
  {
    forall i, j | 0 <= i < j < |items| ensures items[i] != items[j] {
      ListHasNoRepeat(cells, h, items, i, j);
    }
  }

  lemma {:induction false} ListHasNoRepeat(cells: Cells, h: Header, items: seq<nat>, i: nat, j: nat)
    requires ListRep(cells, h, items) && i < j < |items|
    ensures items[i] != items[j]
  {
    if i > 0 {
      ListHasNoRepeat(cells, h, items, i - 1, j - 1);
    }
    assert Linked(cells, items, i) && Linked(cells, items, j);
    assert NodeAt(items, i).prev != NodeAt(items, j).prev;
  }

  /** A queue is unaffected by whatever happens outside its own slots. */
  lemma ListFrame(cells: Cells, cells': Cells, h: Header, items: seq<nat>)
    requires ListRep(cells, h, items) && |cells'| == |cells|
    requires forall i :: 0 <= i < |items| && items[i] < |cells| ==> cells'[items[i]] == cells[items[i]]
    ensures ListRep(cells', h, items)
  {
    forall i: nat | i < |items| ensures Linked(cells', items, i) {
      assert Linked(cells, items, i);
    }
  }

  function WithNext(cells: Cells, slot: nat, next: Option<nat>): Cells
    requires IsLive(cells, slot)
  {
    var order := At(cells, slot);
    Put(cells, slot, order.(listNode := order.listNode.(next := next)))
  }

  function WithPrev(cells: Cells, slot: nat, prev: Option<nat>): Cells
    requires IsLive(cells, slot)
  {
    var order := At(cells, slot);
    Put(cells, slot, order.(listNode := order.listNode.(prev := prev)))
  }

  function WithNode(cells: Cells, slot: nat, node: Node): Cells
    requires IsLive(cells, slot)
  {
    Put(cells, slot, At(cells, slot).(listNode := node))
  }

  /** The writes of `append`. */
  function AppendStep(cells: Cells, h: Header, item: nat): (Cells, Header)
    requires IsLive(cells, item)
    requires h.head.Some? ==> h.tail.Some? && IsLive(cells, h.tail.value)
  {
    if h.head.None? then
      (WithNode(cells, item, DETACHED), Header(Some(item), Some(item), h.size + 1))
    else
      (WithNode(WithNext(cells, h.tail.value, Some(item)), item, Node(None, h.tail)),
       Header(h.head, Some(item), h.size + 1))
  }

  /** The orders `remove` will write to through the links of the item. */
  ghost predicate NeighboursLive(cells: Cells, item: nat)
    requires IsLive(cells, item)
  {
    var node := At(cells, item).listNode;
    && (node.prev.Some? ==> node.prev.value != item && IsLive(cells, node.prev.value))
    && (node.next.Some? ==> node.next.value != item && IsLive(cells, node.next.value))
  }

  /** The writes of `remove`, for an item that may or may not be in the queue. */
  ghost function RemoveStep(cells: Cells, h: Header, item: nat): (Cells, Header)
    requires IsLive(cells, item) && NeighboursLive(cells, item) && h.size > 0
  {
    var node := At(cells, item).listNode;
    var c1 := if node.prev.Some? then WithNext(cells, node.prev.value, node.next) else cells;
    var c2 := if node.next.Some? then WithPrev(c1, node.next.value, node.prev) else c1;
    (WithNode(c2, item, DETACHED),
     Header(
       if node.prev.Some? then h.head else node.next,
       if node.next.Some? then h.tail else node.prev,
       h.size - 1))
  }

  function Without(items: seq<nat>, k: nat): seq<nat>
    requires k < |items|
  {
    items[..k] + items[k + 1..]
  }

  lemma AppendKeepsList(cells: Cells, h: Header, items: seq<nat>, item: nat)
    requires ListRep(cells, h, items) && IsLive(cells, item) && item !in items
    ensures h.head.Some? ==> h.tail.Some? && IsLive(cells, h.tail.value)
    ensures var (cells', h') := AppendStep(cells, h, item);
      ListRep(cells', h', items + [item]) && LinksOnly(cells, cells', items + [item])
  {
    ListIsAcyclic(cells, h, items);
    var n := |items|;
    assert n > 0 ==> Linked(cells, items, n - 1);
    var (cells', h') := AppendStep(cells, h, item);
    var more := items + [item];
    forall i: nat | i < |more| ensures Linked(cells', more, i) {
      assert i < n ==> Linked(cells, items, i);
    }
  }

  lemma MemberMayBeRemoved(cells: Cells, h: Header, items: seq<nat>, k: nat)
    requires ListRep(cells, h, items) && k < |items|
    ensures IsLive(cells, items[k]) && NeighboursLive(cells, items[k]) && h.size > 0
    ensures At(cells, items[k]).listNode == NodeAt(items, k)
  {
    ListIsAcyclic(cells, h, items);
    assert Linked(cells, items, k);
    assert k > 0 ==> Linked(cells, items, k - 1);
    assert k + 1 < |items| ==> Linked(cells, items, k + 1);
  }

  /** What unlinking `item` amounts to: only its own links and those of its neighbours change. */
  ghost predicate Unlinked(cells: Cells, cells': Cells, item: nat)
    requires IsLive(cells, item) && NeighboursLive(cells, item)
  {
    var node := At(cells, item).listNode;
    && LinksOnly(cells, cells', [item] + (if node.prev.Some? then [node.prev.value] else [])
                                       + (if node.next.Some? then [node.next.value] else []))
    && At(cells', item).listNode == DETACHED
    && (node.prev.Some? && node.prev != node.next ==>
          At(cells', node.prev.value).listNode == At(cells, node.prev.value).listNode.(next := node.next))
    && (node.next.Some? && node.prev != node.next ==>
          At(cells', node.next.value).listNode == At(cells, node.next.value).listNode.(prev := node.prev))
  }

  lemma RemoveUnlinks(cells: Cells, h: Header, item: nat)
    requires IsLive(cells, item) && NeighboursLive(cells, item) && h.size > 0
    ensures Unlinked(cells, RemoveStep(cells, h, item).0, item)
  {
  }

  /** The links of the remaining items after the k-th one is unlinked. */
  lemma UnlinkedItem(cells: Cells, cells': Cells, items: seq<nat>, k: nat, j: nat)
    requires k < |items| && j < |items| && j != k && Distinct(items)
    requires forall i: nat :: i < |items| ==> Linked(cells, items, i)
    requires IsLive(cells, items[k]) && NeighboursLive(cells, items[k]) && Unlinked(cells, cells', items[k])
    ensures Linked(cells', Without(items, k), if j < k then j else j - 1)
  {
    assert Linked(cells, items, k) && Linked(cells, items, j);
    var rest, i := Without(items, k), if j < k then j else j - 1;
    assert rest[i] == items[j];
    assert i > 0 ==> rest[i - 1] == if j == k + 1 then items[k - 1] else items[j - 1];
    assert i + 1 < |rest| ==> rest[i + 1] == if j + 1 == k then items[k + 1] else items[j + 1];
  }

  lemma RemovedHeader(cells: Cells, h: Header, items: seq<nat>, k: nat)
    requires ListRep(cells, h, items) && k < |items|
    ensures IsLive(cells, items[k]) && NeighboursLive(cells, items[k]) && h.size > 0
    ensures RemoveStep(cells, h, items[k]).1 == HeaderOf(Without(items, k))
  {
    MemberMayBeRemoved(cells, h, items, k);
  }

  /** Unlinking a member writes to members only. */
  lemma UnlinkedTouchesItems(cells: Cells, cells': Cells, items: seq<nat>, k: nat)
    requires k < |items| && IsLive(cells, items[k]) && NeighboursLive(cells, items[k])
    requires At(cells, items[k]).listNode == NodeAt(items, k) && Unlinked(cells, cells', items[k])
    ensures LinksOnly(cells, cells', items)
  {
    var node := NodeAt(items, k);
    assert node.prev.Some? ==> node.prev.value in items;
    assert node.next.Some? ==> node.next.value in items;
  }

  lemma RemoveKeepsList(cells: Cells, h: Header, items: seq<nat>, k: nat)
    requires ListRep(cells, h, items) && k < |items|
    ensures IsLive(cells, items[k]) && NeighboursLive(cells, items[k]) && h.size > 0
    ensures var (cells', h') := RemoveStep(cells, h, items[k]);
      && ListRep(cells', h', Without(items, k))
      && LinksOnly(cells, cells', items)
      && At(cells', items[k]).listNode == DETACHED
  {
    hide RemoveStep, LinksOnly;
    ListIsAcyclic(cells, h, items);
    MemberMayBeRemoved(cells, h, items, k);
    RemoveUnlinks(cells, h, items[k]);
    RemovedHeader(cells, h, items, k);
    var (cells', h') := RemoveStep(cells, h, items[k]);
    UnlinkedTouchesItems(cells, cells', items, k);
    var rest := Without(items, k);
    forall i: nat | i < |rest| ensures Linked(cells', rest, i) {
      UnlinkedItem(cells, cells', items, k, if i < k then i else i + 1);
    }
  }

  /** A call on a queue, and what it does to the store and the header.  Only `Pop` answers. */
  datatype QueueOp = Append(item: nat) | Pop | Remove(item: nat)

  ghost predicate MayAct(cells: Cells, h: Header, op: QueueOp) {
    match op
    case Append(x) => IsLive(cells, x) && (h.head.Some? ==> h.tail.Some? && IsLive(cells, h.tail.value))
    case Pop => h.head.Some? ==> IsLive(cells, h.head.value) && NeighboursLive(cells, h.head.value) && h.size > 0
    case Remove(x) => IsLive(cells, x) && NeighboursLive(cells, x) && h.size > 0
  }

  ghost function Act(cells: Cells, h: Header, op: QueueOp): (Cells, Header, Option<nat>)
    requires MayAct(cells, h, op)
  {
    match op
    case Append(x) =>
      var (c, g) := AppendStep(cells, h, x);
      (c, g, None)
    case Pop =>
      if h.head.None? then (cells, h, None)
      else
        var (c, g) := RemoveStep(cells, h, h.head.value);
        (c, g, h.head)
    case Remove(x) =>
      var (c, g) := RemoveStep(cells, h, x);
      (c, g, None)
  }

  class IntrusiveQueue {
    var head: Option<nat>
    var tail: Option<nat>
    var size: nat

    ghost function GetHeader(): Header
      reads this
    {
      Header(head, tail, size)
    }

    ghost predicate Holds(store: array<Element<Order>>, items: seq<nat>)
      reads this, store
    {
      ListRep(store[..], GetHeader(), items)
    }

    constructor ()
      ensures GetHeader() == EMPTY
    {
      head, tail, size := None, None, 0;
    }

    function Peek(): Option<nat>
      reads this
    {
      head
    }

    predicate Empty()
      reads this
    {
      size == 0
    }

    method Append(store: array<Element<Order>>, item: nat, ghost items: seq<nat>)
      requires Holds(store, items) && IsLive(store[..], item) && item !in items
      modifies this, store
      ensures Holds(store, items + [item])
      ensures LinksOnly(old(store[..]), store[..], items + [item])
      ensures (old(head).Some? ==> old(tail).Some? && old(IsLive(store[..], tail.value)))
      ensures (store[..], GetHeader()) == AppendStep(old(store[..]), old(GetHeader()), item)
      ensures (store[..], GetHeader(), None) == Act(old(store[..]), old(GetHeader()), QueueOp.Append(item))
    {
      AppendKeepsList(store[..], GetHeader(), items, item);
      ghost var cells, h := store[..], GetHeader();
      if head.None? {
        head, tail := Some(item), Some(item);
        SetNode(store, item, DETACHED);
      } else {
        SetNext(store, tail.value, Some(item));
        SetNode(store, item, Node(None, tail));
        tail := Some(item);
      }
      size := size + 1;
      assert (store[..], GetHeader()) == AppendStep(cells, h, item);
    }

    /** Unlinks `item`, whether or not it is in this queue: nothing is checked. */
    method Remove(store: array<Element<Order>>, item: nat)
      requires IsLive(store[..], item) && NeighboursLive(store[..], item) && size > 0
      modifies this, store
      ensures (store[..], GetHeader()) == RemoveStep(old(store[..]), old(GetHeader()), item)
      ensures (store[..], GetHeader(), None) == Act(old(store[..]), old(GetHeader()), QueueOp.Remove(item))
    {
      ghost var cells, h := store[..], GetHeader();
      var node := store[item].storage.value.listNode;
      if node.prev.Some? {
        SetNext(store, node.prev.value, node.next);
      } else {
        head := node.next;
      }
      if node.next.Some? {
        SetPrev(store, node.next.value, node.prev);
      } else {
        tail := node.prev;
      }
      SetNode(store, item, DETACHED);
      size := size - 1;
      assert (store[..], GetHeader()) == RemoveStep(cells, h, item);
    }

    method Pop(store: array<Element<Order>>, ghost items: seq<nat>) returns (item: Option<nat>)
      requires Holds(store, items)
      modifies this, store
      ensures item == if items == [] then None else Some(items[0])
      ensures Holds(store, if items == [] then [] else items[1..])
      ensures LinksOnly(old(store[..]), store[..], items)
      ensures MayAct(old(store[..]), old(GetHeader()), QueueOp.Pop)
      ensures (store[..], GetHeader(), item) == Act(old(store[..]), old(GetHeader()), QueueOp.Pop)
    {
      if head.None? {
        return None;
      }
      item := head;
      RemoveKeepsList(store[..], GetHeader(), items, 0);
      Remove(store, item.value);
      assert Without(items, 0) == items[1..];
    }
  }

  /** Writes to the links of the order in a slot. */
  method SetNode(store: array<Element<Order>>, slot: nat, node: Node)
    requires IsLive(store[..], slot)
    modifies store
    ensures store[..] == WithNode(old(store[..]), slot, node)
  {
    store[slot] := store[slot].(storage := Object(store[slot].storage.value.(listNode := node)));
    assert store[..] == WithNode(old(store[..]), slot, node);
  }

  method SetNext(store: array<Element<Order>>, slot: nat, next: Option<nat>)
    requires IsLive(store[..], slot)
    modifies store
    ensures store[..] == WithNext(old(store[..]), slot, next)
  {
    var order := store[slot].storage.value;
    SetNode(store, slot, order.listNode.(next := next));
  }

  method SetPrev(store: array<Element<Order>>, slot: nat, prev: Option<nat>)
    requires IsLive(store[..], slot)
    modifies store
    ensures store[..] == WithPrev(old(store[..]), slot, prev)
  {
    var order := store[slot].storage.value;
    SetNode(store, slot, order.listNode.(prev := prev));
  }
}

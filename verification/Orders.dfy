/** Orders as they lie in the slots of the pool, and the one operation they have. */
module Orders {
  import opened Basics
  import opened MemPools

  datatype OrderType = Limit | Market

  /** The links an order carries for the queue it stands in. */
  datatype Node = Node(next: Option<nat>, prev: Option<nat>)

  const DETACHED: Node := Node(None, None)

  datatype Order = Order(
    orderId: uint64, clientId: uint64, size: uint32, price: uint64,
    isBuySide: bool, orderType: OrderType, listNode: Node)

  type Cells = seq<Element<Order>>

  /** Reading and overwriting the order in a slot. */
  function At(cells: Cells, slot: nat): Order
    requires IsLive(cells, slot)
  {
    cells[slot].storage.value
  }

  function Put(cells: Cells, slot: nat, order: Order): Cells
    requires IsLive(cells, slot)
  {
    cells[slot := cells[slot].(storage := Object(order))]
  }

  /** An order without its links: all that matters outside the queues. */
  function Payload(order: Order): Order {
    order.(listNode := DETACHED)
  }

  /** Takes up to `amount` units off the order in `slot`, in place. */
  method DecreaseSize(store: array<Element<Order>>, slot: nat, amount: uint32) returns (removed: uint32)
    requires IsLive(store[..], slot)
    modifies store
    ensures removed == Min(amount, old(At(store[..], slot)).size)
    ensures var order := old(At(store[..], slot));
      store[..] == Put(old(store[..]), slot, order.(size := order.size - removed))
  {
    var order := store[slot].storage.value;
    if amount >= order.size {
      removed := order.size;
      store[slot] := store[slot].(storage := Object(order.(size := 0)));
    } else {
      store[slot] := store[slot].(storage := Object(order.(size := order.size - amount)));
      removed := amount;
    }
    assert store[..] == Put(old(store[..]), slot, order.(size := order.size - removed));
  }
}

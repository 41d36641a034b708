/** The order book as a value: what each public operation does to it, in terms of price-time lists. */
module Books {
  import opened Basics
  import opened Orders
  import opened PriceTime

  /** What was left of an order when it was cancelled (nothing, when a filled order is released). */
  datatype Cancellation = Cancellation(stamp: nat, isBuy: bool, amount: nat)

  /** `idle` holds the orders handed back to their owners without resting.  The last three fields are
      the history: the orders accepted, in order of arrival (an order's stamp is its place here), the
      trades and the cancellations. */
  datatype Book = Book(
    bids: seq<Entry>, asks: seq<Entry>, idle: map<nat, Entry>, free: seq<nat>,
    accepted: seq<Order>, trades: seq<Trade>, cancelled: seq<Cancellation>)

  function Opened(capacity: nat): Book {
    Book([], [], map[], Iota(capacity), [], [], [])
  }

  function SideOf(b: Book, isBuy: bool): seq<Entry> {
    if isBuy then b.bids else b.asks
  }

  function WithSide(b: Book, isBuy: bool, s: seq<Entry>): Book {
    if isBuy then b.(bids := s) else b.(asks := s)
  }

  /** The opposite prices an incoming order accepts. */
  function ReachOf(isBuy: bool, orderType: OrderType, price: uint64): Reach {
    match orderType
    case Market => Everything
    case Limit => if isBuy then AtMost(price) else AtLeast(price)
  }

  // ---------- Matching ----------

  /** `n` units are taken off the front of one side. */
  function Consume(b: Book, isBuy: bool, taker: Option<nat>, n: nat): Book {
    var s := SideOf(b, isBuy);
    WithSide(b, isBuy, Drain(s, n)).(
      free := Release(b.free, Emptied(s, n)),
      trades := b.trades + TradesOf(taker, s, n))
  }

  /** The quantity an incoming order of `size`, `start` of it already matched, takes from the book. */
  function MatchAmount(b: Book, isBuy: bool, price: uint64, size: nat, orderType: OrderType, start: nat): nat {
    if start < size then FillAmount(SideOf(b, !isBuy), ReachOf(isBuy, orderType, price), size - start) else 0
  }

  function MatchOrder(b: Book, isBuy: bool, price: uint64, size: nat, orderType: OrderType, start: nat,
                      taker: Option<nat>): (Book, nat)
  {
    var n := MatchAmount(b, isBuy, price, size, orderType, start);
    (Consume(b, !isBuy, taker, n), start + n)
  }

  // ---------- Adding ----------

  /** The slot is taken before anything else happens; until the order rests it belongs to its owner. */
  function Admit(b: Book, order: Order): Book
    requires b.free != []
  {
    var slot := b.free[0];
    b.(free := b.free[1..],
       accepted := b.accepted + [order],
       idle := b.idle[slot := Entry(slot, |b.accepted|, order)])
  }

  /** After matching, the remainder rests; a fully matched order stays with its owner. */
  function Settle(b: Book, slot: nat, matched: nat): Book
    requires slot in b.idle && matched <= b.idle[slot].order.size
  {
    var e := Shrunk(b.idle[slot], matched);
    if e.order.size > 0 then
      var isBuy := e.order.isBuySide;
      WithSide(b, isBuy, Insert(isBuy, SideOf(b, isBuy), e)).(idle := b.idle - {slot})
    else
      b.(idle := b.idle[slot := e])
  }

  function MatchedOnArrival(b: Book, order: Order): nat {
    MatchAmount(b, order.isBuySide, order.price, order.size, order.orderType, 0)
  }

  function AddOrder(b: Book, order: Order): (Book, Option<nat>) {
    if b.free == [] then (b, None)
    else
      var slot := b.free[0];
      var matched := MatchedOnArrival(b, order);
      (Settle(Consume(Admit(b, order), !order.isBuySide, Some(|b.accepted|), matched), slot, matched), Some(slot))
  }

  // ---------- Cancelling ----------

  predicate Resting(b: Book, slot: nat) {
    slot in Slots(b.bids) || slot in Slots(b.asks)
  }

  /** The orders `cancelOrder` handles properly: those resting, and those that are not provided no
      order of their side rests at their price. */
  predicate Cancellable(b: Book, slot: nat) {
    || Resting(b, slot)
    || (slot in b.idle && LevelOf(SideOf(b, b.idle[slot].order.isBuySide), b.idle[slot].order.price) == [])
  }

  /** The order disappears and its slot goes on top of the free list. */
  function CancelOrder(b: Book, slot: nat): Book
    requires Cancellable(b, slot)
  {
    if Resting(b, slot) then
      var isBuy := slot in Slots(b.bids);
      var e := Find(SideOf(b, isBuy), slot);
      WithSide(b, isBuy, Delete(SideOf(b, isBuy), slot)).(
        free := [slot] + b.free,
        cancelled := b.cancelled + [Cancellation(e.stamp, isBuy, e.order.size)])
    else
      var e := b.idle[slot];
      b.(idle := b.idle - {slot},
         free := [slot] + b.free,
         cancelled := b.cancelled + [Cancellation(e.stamp, e.order.isBuySide, e.order.size)])
  }

  // ---------- Runs ----------

  datatype Op =
    | Add(order: Order)
    | Cancel(target: Option<nat>)
    | Match(isBuy: bool, price: uint64, size: uint32, orderType: OrderType, start: uint32)

  datatype Reply = Returned(slot: Option<nat>) | Done | Matched(total: nat)

  predicate Enabled(b: Book, op: Op) {
    match op
    case Add(order) => order.listNode == DETACHED
    case Cancel(target) => target.Some? ==> Cancellable(b, target.value)
    case Match(_, _, _, _, _) => true
  }

  function Step(b: Book, op: Op): (Book, Reply)
    requires Enabled(b, op)
  {
    match op
    case Add(order) =>
      var (b', slot) := AddOrder(b, order);
      (b', Returned(slot))
    case Cancel(target) =>
      (if target.None? then b else CancelOrder(b, target.value), Done)
    case Match(isBuy, price, size, orderType, start) =>
      var (b', total) := MatchOrder(b, isBuy, price, size, orderType, start, None);
      (b', Matched(total))
  }

  ghost predicate Runs(b: Book, ops: seq<Op>)
    decreases |ops|
  {
    ops != [] ==> Enabled(b, ops[0]) && Runs(Step(b, ops[0]).0, ops[1..])
  }

  ghost function After(b: Book, ops: seq<Op>): Book
    requires Runs(b, ops)
    decreases |ops|
  {
    if ops == [] then b else After(Step(b, ops[0]).0, ops[1..])
  }

  ghost function Replies(b: Book, ops: seq<Op>): seq<Reply>
    requires Runs(b, ops)
    decreases |ops|
  {
    if ops == [] then [] else [Step(b, ops[0]).1] + Replies(Step(b, ops[0]).0, ops[1..])
  }
}

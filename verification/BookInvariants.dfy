/** What every operation keeps, and hence what holds after every run. */
module BookInvariants {
  import opened Basics
  import opened Orders
  import opened PriceTime
  import opened Books

  // ---------- The invariant ----------

  /** The entry is the accepted order of its stamp, apart from the size still open. */
  ghost predicate EntryOk(accepted: seq<Order>, e: Entry) {
    && e.stamp < |accepted|
    && e.order.listNode == DETACHED
    && e.order.size <= accepted[e.stamp].size
    && e.order == accepted[e.stamp].(size := e.order.size)
  }

  ghost predicate SideOk(accepted: seq<Order>, s: seq<Entry>, isBuy: bool) {
    && (forall i :: 0 <= i < |s| ==> EntryOk(accepted, s[i]) && s[i].order.isBuySide == isBuy)
    && AllPositive(s)
    && Sorted(isBuy, s)
  }

  ghost predicate IdleOk(b: Book) {
    forall x :: x in b.idle ==> b.idle[x].slot == x && EntryOk(b.accepted, b.idle[x]) && b.idle[x].order.size == 0
  }

  /** The best bid is below the best ask. */
  predicate Uncrossed(b: Book) {
    b.bids != [] && b.asks != [] ==> b.bids[0].order.price < b.asks[0].order.price
  }

  /** How many places hold a slot: the free list, the two sides, the orders with their owners. */
  ghost function Places(b: Book, slot: nat): nat {
    multiset(b.free)[slot] + multiset(Slots(b.bids))[slot] + multiset(Slots(b.asks))[slot]
    + (if slot in b.idle then 1 else 0)
  }

  /** Every slot of the pool is in exactly one place. */
  ghost predicate SlotsOk(b: Book, capacity: nat) {
    forall x: nat :: Places(b, x) == if x < capacity then 1 else 0
  }

  /** The maker rested at its own price; the taker came later, from the other side, and the price is
      one it accepts: for a Limit order, at or inside its own. */
  ghost predicate TradeOk(accepted: seq<Order>, t: Trade) {
    && t.maker < |accepted|
    && t.amount > 0
    && accepted[t.maker].price == t.price && accepted[t.maker].isBuySide == t.makerIsBuy
    && (t.taker.Some? ==>
          && t.maker < t.taker.value < |accepted|
          && var o := accepted[t.taker.value];
             && o.isBuySide != t.makerIsBuy
             && (o.orderType == Limit ==> if o.isBuySide then t.price <= o.price else t.price >= o.price))
  }

  ghost predicate TradesOk(b: Book) {
    forall i :: 0 <= i < |b.trades| ==> TradeOk(b.accepted, b.trades[i])
  }

  // ---------- The ledger ----------

  /** Whose quantities are counted: one order's, one side's, or everybody's. */
  datatype Account = One(stamp: nat) | Side(isBuy: bool) | Everyone

  predicate Concerns(a: Account, stamp: nat, isBuy: bool) {
    match a
    case One(s) => s == stamp
    case Side(side) => side == isBuy
    case Everyone => true
  }

  function Share(concerned: bool, amount: nat): nat {
    if concerned then amount else 0
  }

  function AcceptedSum(accepted: seq<Order>, a: Account): nat {
    if accepted == [] then 0
    else
      var last := |accepted| - 1;
      AcceptedSum(accepted[..last], a) + Share(Concerns(a, last, accepted[last].isBuySide), accepted[last].size)
  }

  function RestingSum(s: seq<Entry>, a: Account): nat {
    if s == [] then 0
    else Share(Concerns(a, s[0].stamp, s[0].order.isBuySide), s[0].order.size) + RestingSum(s[1..], a)
  }

  function CancelledSum(cancelled: seq<Cancellation>, a: Account): nat {
    if cancelled == [] then 0
    else
      var last := cancelled[|cancelled| - 1];
      CancelledSum(cancelled[..|cancelled| - 1], a) + Share(Concerns(a, last.stamp, last.isBuy), last.amount)
  }

  /** A trade counts for its maker and for its taker. */
  function TradedSum(trades: seq<Trade>, a: Account): nat {
    if trades == [] then 0
    else
      var t := trades[0];
      Share(Concerns(a, t.maker, t.makerIsBuy), t.amount)
      + Share(t.taker.Some? && Concerns(a, t.taker.value, !t.makerIsBuy), t.amount)
      + TradedSum(trades[1..], a)
  }

  ghost predicate Balanced(b: Book, a: Account) {
    AcceptedSum(b.accepted, a)
    == RestingSum(b.bids, a) + RestingSum(b.asks, a) + CancelledSum(b.cancelled, a) + TradedSum(b.trades, a)
  }

  ghost predicate Invariant(b: Book, capacity: nat) {
    && SideOk(b.accepted, b.bids, true)
    && SideOk(b.accepted, b.asks, false)
    && IdleOk(b)
    && Uncrossed(b)
    && SlotsOk(b, capacity)
    && TradesOk(b)
    && forall a: Account :: Balanced(b, a)
  }

  // ---------- Slots ----------

  lemma CountedTwice(s: seq<nat>, i: nat, j: nat)
    requires i < j < |s| && s[i] == s[j]
    ensures multiset(s)[s[i]] >= 2
  {
    assert s == s[..j] + s[j..];
    assert s[..j][i] in multiset(s[..j]) && s[j..][0] in multiset(s[j..]);
  }

  lemma AtMostOnceIsDistinct(b: Book, capacity: nat, s: seq<nat>)
    requires SlotsOk(b, capacity)
    requires s == b.free || s == Slots(b.bids) || s == Slots(b.asks)
    ensures Distinct(s)
  {
    forall i, j | 0 <= i < j < |s| ensures s[i] != s[j] {
      assert Places(b, s[i]) <= 1;
      if s[i] == s[j] {
        CountedTwice(s, i, j);
      }
    }
  }

  /** The four places are disjoint and cover the pool. */
  lemma SlotIsInOnePlace(b: Book, capacity: nat, x: nat)
    requires SlotsOk(b, capacity)
    ensures x < capacity <==> x in b.free || x in Slots(b.bids) || x in Slots(b.asks) || x in b.idle
    ensures x in b.free ==> x !in Slots(b.bids) && x !in Slots(b.asks) && x !in b.idle
    ensures x in Slots(b.bids) ==> x !in Slots(b.asks) && x !in b.idle
    ensures x in Slots(b.asks) ==> x !in b.idle
  {
    assert Places(b, x) == if x < capacity then 1 else 0;
    assert x in b.free <==> multiset(b.free)[x] > 0;
    assert x in Slots(b.bids) <==> multiset(Slots(b.bids))[x] > 0;
    assert x in Slots(b.asks) <==> multiset(Slots(b.asks))[x] > 0;
  }

  /** Slot accounting: capacity = free slots + resting orders + orders with their owners. */
  lemma SlotsAddUp(b: Book, capacity: nat)
    requires SlotsOk(b, capacity)
    ensures |b.free| + |b.bids| + |b.asks| + |b.idle| == capacity
  {
    var all := multiset(b.free) + multiset(Slots(b.bids)) + multiset(Slots(b.asks)) + multiset(b.idle.Keys);
    forall x: nat ensures all[x] == multiset(Iota(capacity))[x] {
      assert Places(b, x) == if x < capacity then 1 else 0;
      IotaCount(capacity, x);
    }
    assert all == multiset(Iota(capacity));
    assert |b.idle.Keys| == |b.idle|;
  }

  lemma {:induction false} IotaCount(n: nat, x: nat)
    ensures multiset(Iota(n))[x] == if x < n then 1 else 0
    decreases n
  {
    if n == 0 {
      assert Iota(0) == [];
    } else {
      IotaCount(n - 1, x);
      assert Iota(n) == Iota(n - 1) + [n - 1];
    }
  }

  lemma DrainMovesSlots(s: seq<Entry>, n: nat, free: seq<nat>, x: nat)
    ensures multiset(Release(free, Emptied(s, n)))[x] + multiset(Slots(Drain(s, n)))[x]
            == multiset(free)[x] + multiset(Slots(s))[x]
  {
    DrainKeepsSlots(s, n);
    ReleaseKeepsSlots(free, Emptied(s, n));
    assert multiset(Slots(s)) == multiset(Emptied(s, n)) + multiset(Slots(Drain(s, n)));
  }

  lemma ConsumeKeepsSlots(b: Book, isBuy: bool, taker: Option<nat>, n: nat, x: nat)
    ensures Places(Consume(b, isBuy, taker, n), x) == Places(b, x)
  {
    DrainMovesSlots(SideOf(b, isBuy), n, b.free, x);
  }

  lemma AdmitKeepsSlots(b: Book, order: Order, capacity: nat, x: nat)
    requires b.free != [] && SlotsOk(b, capacity)
    ensures Places(Admit(b, order), x) == Places(b, x)
  {
    SlotIsInOnePlace(b, capacity, b.free[0]);
    assert b.free == [b.free[0]] + b.free[1..];
  }

  lemma {:induction false} InsertAddsSlot(isBuy: bool, s: seq<Entry>, e: Entry)
    ensures multiset(Slots(Insert(isBuy, s, e))) == multiset(Slots(s)) + multiset{e.slot}
  {
    if !(s == [] || BetterPrice(isBuy, e.order.price, s[0].order.price)) {
      InsertAddsSlot(isBuy, s[1..], e);
    }
  }

  lemma {:induction false} DeleteTakesSlot(s: seq<Entry>, slot: nat)
    requires slot in Slots(s)
    ensures multiset(Slots(s)) == multiset(Slots(Delete(s, slot))) + multiset{slot}
  {
    assert Slots(s) == [s[0].slot] + Slots(s[1..]);
    if s[0].slot != slot {
      DeleteTakesSlot(s[1..], slot);
    }
  }

  lemma SettleKeepsSlots(b: Book, slot: nat, matched: nat, x: nat)
    requires slot in b.idle && matched <= b.idle[slot].order.size && b.idle[slot].slot == slot
    ensures Places(Settle(b, slot, matched), x) == Places(b, x)
  {
    var e := Shrunk(b.idle[slot], matched);
    if e.order.size > 0 {
      var isBuy, b' := e.order.isBuySide, Settle(b, slot, matched);
      InsertAddsSlot(isBuy, SideOf(b, isBuy), e);
      assert multiset(Slots(SideOf(b', isBuy)))[x] == multiset(Slots(SideOf(b, isBuy)))[x] + multiset{slot}[x];
      assert SideOf(b', !isBuy) == SideOf(b, !isBuy) && b'.free == b.free && b'.idle == b.idle - {slot};
    }
  }

  lemma CancelKeepsSlots(b: Book, slot: nat, x: nat)
    requires Cancellable(b, slot)
    ensures Places(CancelOrder(b, slot), x) == Places(b, x)
  {
    if Resting(b, slot) {
      DeleteTakesSlot(SideOf(b, slot in Slots(b.bids)), slot);
    }
    assert multiset([slot] + b.free)[x] == multiset(b.free)[x] + multiset{slot}[x];
  }
}

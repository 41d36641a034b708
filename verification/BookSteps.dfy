/** Every operation keeps the invariant, part by part. */
module BookSteps {
  import opened Basics
  import opened Orders
  import opened PriceTime
  import opened Books
  import opened BookInvariants

  // ---------- Sides ----------

  /** What is left after draining is a suffix of the list, its first order possibly smaller. */
  lemma {:induction false} DrainIsSuffix(s: seq<Entry>, n: nat) returns (k: nat, m: nat)
    ensures k <= |s|
    ensures if k == |s| then Drain(s, n) == [] else
      (m == 0 || m < s[k].order.size) && Drain(s, n) == [Shrunk(s[k], m)] + s[k + 1..]
  {
    m := 0;
    if s == [] {
      k := 0;
    } else if n < s[0].order.size || n == 0 {
      k, m := 0, n;
    } else {
      k, m := DrainIsSuffix(s[1..], n - s[0].order.size);
      k := k + 1;
    }
  }

  lemma DrainKeepsSide(accepted: seq<Order>, s: seq<Entry>, isBuy: bool, n: nat)
    requires SideOk(accepted, s, isBuy)
    ensures SideOk(accepted, Drain(s, n), isBuy)
  {
    var k, m := DrainIsSuffix(s, n);
    var t := Drain(s, n);
    forall i | 0 <= i < |t| ensures t[i].stamp == s[k + i].stamp && t[i].order == s[k + i].order.(size := t[i].order.size) {
    }
    forall i | 0 <= i < |t|
      ensures EntryOk(accepted, t[i]) && t[i].order.isBuySide == isBuy && t[i].order.size > 0
    {
      assert EntryOk(accepted, s[k + i]);
    }
    forall i, j | 0 <= i < j < |t| ensures Prior(isBuy, t[i], t[j]) {
      assert Prior(isBuy, s[k + i], s[k + j]);
    }
  }

  lemma InsertKeepsSide(accepted: seq<Order>, s: seq<Entry>, isBuy: bool, e: Entry)
    requires SideOk(accepted, s, isBuy)
    requires EntryOk(accepted, e) && e.order.isBuySide == isBuy && e.order.size > 0
    requires forall i :: 0 <= i < |s| ==> s[i].stamp < e.stamp
    ensures SideOk(accepted, Insert(isBuy, s, e), isBuy)
  {
    InsertSorts(isBuy, s, e);
    var k := InsertPosition(isBuy, s, e);
    var t := Insert(isBuy, s, e);
    forall i | 0 <= i < |t|
      ensures EntryOk(accepted, t[i]) && t[i].order.isBuySide == isBuy && t[i].order.size > 0
    {
      assert t[i] == if i < k then s[i] else if i == k then e else s[i - 1];
    }
  }

  lemma DeleteKeepsSide(accepted: seq<Order>, s: seq<Entry>, isBuy: bool, slot: nat)
    requires SideOk(accepted, s, isBuy) && slot in Slots(s)
    ensures SideOk(accepted, Delete(s, slot), isBuy)
  {
    var k := DeletePosition(s, slot);
    GapKeepsSide(accepted, s, isBuy, k);
  }

  lemma GapKeepsSide(accepted: seq<Order>, s: seq<Entry>, isBuy: bool, k: nat)
    requires SideOk(accepted, s, isBuy) && k < |s|
    ensures SideOk(accepted, s[..k] + s[k + 1..], isBuy)
  {
    var t := s[..k] + s[k + 1..];
    forall i | 0 <= i < |t|
      ensures EntryOk(accepted, t[i]) && t[i].order.isBuySide == isBuy && t[i].order.size > 0
    {
      assert t[i] == if i < k then s[i] else s[i + 1];
    }
    forall i, j | 0 <= i < j < |t| ensures Prior(isBuy, t[i], t[j]) {
      var i', j' := if i < k then i else i + 1, if j < k then j else j + 1;
      assert t[i] == s[i'] && t[j] == s[j'] && Prior(isBuy, s[i'], s[j']);
    }
  }

  lemma MoreAcceptedKeepsSide(accepted: seq<Order>, o: Order, s: seq<Entry>, isBuy: bool)
    requires SideOk(accepted, s, isBuy)
    ensures SideOk(accepted + [o], s, isBuy)
    ensures forall i :: 0 <= i < |s| ==> s[i].stamp < |accepted|
  {
    forall i | 0 <= i < |s| ensures EntryOk(accepted + [o], s[i]) && s[i].stamp < |accepted| {
      assert EntryOk(accepted, s[i]);
    }
  }

  /** What an accepted order does, place by place. */
  lemma AddOrderPlaces(b: Book, order: Order)
    requires b.free != []
    ensures MatchedOnArrival(b, order) <= order.size
    ensures var isBuy, stamp := order.isBuySide, |b.accepted|;
      var slot, n := b.free[0], MatchedOnArrival(b, order);
      var e := Entry(slot, stamp, order.(size := order.size - n));
      var own, s := SideOf(b, isBuy), SideOf(b, !isBuy);
      var b' := AddOrder(b, order).0;
      && SideOf(b', !isBuy) == Drain(s, n)
      && SideOf(b', isBuy) == (if n < order.size then Insert(isBuy, own, e) else own)
      && b'.idle == (if n < order.size then (b.idle[slot := e] - {slot}) else b.idle[slot := e])
      && b'.free == Release(b.free[1..], Emptied(s, n))
      && b'.accepted == b.accepted + [order]
      && b'.trades == b.trades + TradesOf(Some(stamp), s, n)
      && b'.cancelled == b.cancelled
  {
    assert b.idle[b.free[0] := Entry(b.free[0], |b.accepted|, order)] - {b.free[0]} ==
           b.idle[b.free[0] := Entry(b.free[0], |b.accepted|, order.(size := order.size - MatchedOnArrival(b, order)))] - {b.free[0]};
  }

  // ---------- Reach and crossing ----------

  /** On a sorted side the orders an incoming order accepts come first. */
  lemma SideIsReachable(accepted: seq<Order>, s: seq<Entry>, isBuy: bool, orderType: OrderType, price: uint64)
    requires SideOk(accepted, s, !isBuy)
    ensures Reachable(s, ReachOf(isBuy, orderType, price))
  {
    forall i, j | 0 <= i < j < |s| && Covers(ReachOf(isBuy, orderType, price), s[j].order.price)
      ensures Covers(ReachOf(isBuy, orderType, price), s[i].order.price)
    {
      assert Prior(!isBuy, s[i], s[j]);
    }
  }

  /** The best price of a sorted side bounds all its prices. */
  lemma BestIsFirst(accepted: seq<Order>, s: seq<Entry>, isBuy: bool, i: nat)
    requires SideOk(accepted, s, isBuy) && i < |s|
    ensures !BetterPrice(isBuy, s[i].order.price, s[0].order.price)
  {
    assert i > 0 ==> Prior(isBuy, s[0], s[i]);
  }

  /** If an order was not fully matched, nothing it accepts is left: a Market order leaves the other
      side empty, a Limit order leaves no price at or inside its own. */
  lemma LeftoverMeansNothingInReach(accepted: seq<Order>, s: seq<Entry>, isBuy: bool, orderType: OrderType, price: uint64,
                                    wanted: nat)
    requires SideOk(accepted, s, !isBuy)
    ensures var n := FillAmount(s, ReachOf(isBuy, orderType, price), wanted);
      var rest := Drain(s, n);
      n < wanted ==>
        && (orderType == Market ==> rest == [])
        && (orderType == Limit && isBuy ==> forall i :: 0 <= i < |rest| ==> rest[i].order.price > price)
        && (orderType == Limit && !isBuy ==> forall i :: 0 <= i < |rest| ==> rest[i].order.price < price)
  {
    var reach := ReachOf(isBuy, orderType, price);
    var n := FillAmount(s, reach, wanted);
    SideIsReachable(accepted, s, isBuy, orderType, price);
    DrainWithinReach(None, s, reach, n);
    DrainKeepsSide(accepted, s, !isBuy, n);
    if n < wanted {
      var rest := Drain(s, n);
      FrontOutOfReach(rest, reach);
      forall i: nat | i < |rest| ensures !Covers(reach, rest[i].order.price) {
        BestIsFirst(accepted, rest, !isBuy, i);
      }
    }
  }

  lemma SidesOfBook(b: Book, capacity: nat, isBuy: bool)
    requires Invariant(b, capacity)
    ensures SideOk(b.accepted, SideOf(b, isBuy), isBuy)
  {
  }

  lemma ConsumeKeepsUncrossed(b: Book, capacity: nat, isBuy: bool, taker: Option<nat>, n: nat)
    requires Invariant(b, capacity)
    ensures Uncrossed(Consume(b, isBuy, taker, n))
  {
    SidesOfBook(b, capacity, isBuy);
    var s := SideOf(b, isBuy);
    var k, m := DrainIsSuffix(s, n);
    if k < |s| {
      BestIsFirst(b.accepted, s, isBuy, k);
    }
  }

  /** Never crossed: what rests is out of reach of what remains on the other side. */
  lemma AddKeepsUncrossed(b: Book, capacity: nat, order: Order)
    requires Invariant(b, capacity) && b.free != []
    ensures Uncrossed(AddOrder(b, order).0)
  {
    var isBuy, n := order.isBuySide, MatchedOnArrival(b, order);
    var own, s := SideOf(b, isBuy), SideOf(b, !isBuy);
    SidesOfBook(b, capacity, !isBuy);
    ConsumeKeepsUncrossed(b, capacity, !isBuy, Some(|b.accepted|), n);
    LeftoverMeansNothingInReach(b.accepted, s, isBuy, order.orderType, order.price, order.size);
    AddOrderPlaces(b, order);
    if n < order.size {
      InsertFront(isBuy, own, Entry(b.free[0], |b.accepted|, order.(size := order.size - n)));
    }
  }

  lemma InsertFront(isBuy: bool, s: seq<Entry>, e: Entry)
    ensures var t := Insert(isBuy, s, e);
      t != [] && (t[0] == e || (s != [] && t[0] == s[0]))
  {
  }

  lemma CancelKeepsUncrossed(b: Book, capacity: nat, slot: nat)
    requires Invariant(b, capacity) && Cancellable(b, slot)
    ensures Uncrossed(CancelOrder(b, slot))
  {
    if Resting(b, slot) {
      var isBuy := slot in Slots(b.bids);
      SidesOfBook(b, capacity, isBuy);
      var s := SideOf(b, isBuy);
      var k := DeletePosition(s, slot);
      if k == 0 && |s| > 1 {
        BestIsFirst(b.accepted, s, isBuy, 1);
      }
    }
  }

  // ---------- Trades ----------

  /** Trades made by draining within reach are proper trades of the taker. */
  lemma DrainMakesProperTrades(accepted: seq<Order>, s: seq<Entry>, isBuy: bool, taker: Option<nat>, reach: Reach, n: nat)
    requires SideOk(accepted, s, !isBuy) && Reachable(s, reach) && n <= Volume(s, reach)
    requires taker.Some? ==>
      && taker.value < |accepted|
      && var o := accepted[taker.value]; o.isBuySide == isBuy && reach == ReachOf(isBuy, o.orderType, o.price)
    requires taker.Some? ==> forall i :: 0 <= i < |s| ==> s[i].stamp < taker.value
    ensures forall i :: 0 <= i < |TradesOf(taker, s, n)| ==> TradeOk(accepted, TradesOf(taker, s, n)[i])
  {
    DrainTradesWithPrefix(taker, s, n);
    DrainWithinReach(taker, s, reach, n);
    var trades := TradesOf(taker, s, n);
    forall i | 0 <= i < |trades| ensures TradeOk(accepted, trades[i]) {
      assert EntryOk(accepted, s[i]) && trades[i] == TradeWith(taker, s[i], trades[i].amount);
      assert Covers(reach, trades[i].price);
    }
  }

  // ---------- Ledger ----------

  lemma {:induction false} TradedSumConcat(x: seq<Trade>, y: seq<Trade>, a: Account)
    ensures TradedSum(x + y, a) == TradedSum(x, a) + TradedSum(y, a)
  {
    if x == [] {
      assert x + y == y;
    } else {
      assert (x + y)[1..] == x[1..] + y;
      TradedSumConcat(x[1..], y, a);
    }
  }

  /** What a side loses to trades, its makers gain in trades; the taker gains as much. */
  lemma {:induction false} DrainBalances(taker: Option<nat>, s: seq<Entry>, isBuy: bool, n: nat, a: Account)
    requires forall i :: 0 <= i < |s| ==> s[i].order.isBuySide == isBuy
    requires n <= Volume(s, Everything)
    ensures RestingSum(Drain(s, n), a) + TradedSum(TradesOf(taker, s, n), a)
            == RestingSum(s, a) + Share(taker.Some? && Concerns(a, taker.value, !isBuy), n)
    decreases |s|
  {
    if s == [] || n == 0 {
    } else if n < s[0].order.size {
      DrainPartBalances(taker, s, isBuy, n, a);
    } else {
      DrainBalances(taker, s[1..], isBuy, n - s[0].order.size, a);
    }
  }

  lemma DrainPartBalances(taker: Option<nat>, s: seq<Entry>, isBuy: bool, n: nat, a: Account)
    requires s != [] && s[0].order.isBuySide == isBuy && 0 < n < s[0].order.size
    ensures RestingSum(Drain(s, n), a) + TradedSum(TradesOf(taker, s, n), a)
            == RestingSum(s, a) + Share(taker.Some? && Concerns(a, taker.value, !isBuy), n)
  {
    assert ([Shrunk(s[0], n)] + s[1..])[1..] == s[1..];
    assert TradedSum([TradeWith(taker, s[0], n)][1..], a) == 0;
  }

  lemma {:induction false} InsertBalances(isBuy: bool, s: seq<Entry>, e: Entry, a: Account)
    ensures RestingSum(Insert(isBuy, s, e), a)
            == RestingSum(s, a) + Share(Concerns(a, e.stamp, e.order.isBuySide), e.order.size)
  {
    if s == [] || BetterPrice(isBuy, e.order.price, s[0].order.price) {
      assert ([e] + s)[1..] == s;
    } else {
      InsertBalances(isBuy, s[1..], e, a);
    }
  }

  lemma {:induction false} DeleteBalances(s: seq<Entry>, slot: nat, a: Account)
    requires slot in Slots(s)
    ensures var e := Find(s, slot);
      RestingSum(s, a) == RestingSum(Delete(s, slot), a) + Share(Concerns(a, e.stamp, e.order.isBuySide), e.order.size)
  {
    if s[0].slot != slot {
      assert slot in Slots(s[1..]);
      DeleteBalances(s[1..], slot, a);
    }
  }

  lemma AcceptedSumGrows(accepted: seq<Order>, o: Order, a: Account)
    ensures AcceptedSum(accepted + [o], a)
            == AcceptedSum(accepted, a) + Share(Concerns(a, |accepted|, o.isBuySide), o.size)
  {
    assert (accepted + [o])[..|accepted|] == accepted;
  }

  lemma CancelledSumGrows(cancelled: seq<Cancellation>, c: Cancellation, a: Account)
    ensures CancelledSum(cancelled + [c], a)
            == CancelledSum(cancelled, a) + Share(Concerns(a, c.stamp, c.isBuy), c.amount)
  {
    assert (cancelled + [c])[..|cancelled|] == cancelled;
  }

  lemma FillWithinVolume(s: seq<Entry>, reach: Reach, wanted: nat)
    ensures FillAmount(s, reach, wanted) <= Volume(s, Everything)
  {
    VolumeWithin(s, reach, Everything);
  }

  /** Matching on behalf of nobody: only the makers' books move. */
  lemma MatchBalances(b: Book, capacity: nat, isBuy: bool, n: nat, a: Account)
    requires Invariant(b, capacity) && n <= Volume(SideOf(b, isBuy), Everything)
    ensures Balanced(Consume(b, isBuy, None, n), a)
  {
    SidesOfBook(b, capacity, isBuy);
    var s := SideOf(b, isBuy);
    DrainBalances(None, s, isBuy, n, a);
    TradedSumConcat(b.trades, TradesOf(None, s, n), a);
    assert Balanced(b, a);
  }

  lemma AddBalances(b: Book, capacity: nat, order: Order, a: Account)
    requires Invariant(b, capacity) && b.free != []
    ensures Balanced(AddOrder(b, order).0, a)
  {
    hide AcceptedSum, RestingSum, CancelledSum, TradedSum, Drain, TradesOf, AddOrder, SideOk;
    var isBuy, stamp := order.isBuySide, |b.accepted|;
    var s, own := SideOf(b, !isBuy), SideOf(b, isBuy);
    var n := MatchedOnArrival(b, order);
    AddOrderPlaces(b, order);
    FillWithinVolume(s, ReachOf(isBuy, order.orderType, order.price), order.size);
    SidesOfBook(b, capacity, !isBuy);
    AddedSums(b.accepted, order, s, own, b.trades, n, b.free[0], a);
    assert Balanced(b, a);
  }

  lemma AddedSums(accepted: seq<Order>, order: Order, s: seq<Entry>, own: seq<Entry>, trades: seq<Trade>, n: nat,
                  slot: nat, a: Account)
    requires forall i :: 0 <= i < |s| ==> s[i].order.isBuySide == !order.isBuySide
    requires n <= Volume(s, Everything) && n <= order.size
    ensures var isBuy, taker := order.isBuySide, Some(|accepted|);
      var e := Entry(slot, |accepted|, order.(size := order.size - n));
      AcceptedSum(accepted + [order], a) + RestingSum(own, a) + RestingSum(s, a) + TradedSum(trades, a)
      == AcceptedSum(accepted, a) + RestingSum(Insert(isBuy, own, e), a) + RestingSum(Drain(s, n), a)
         + TradedSum(trades + TradesOf(taker, s, n), a)
    ensures n == order.size ==>
      RestingSum(Insert(order.isBuySide, own, Entry(slot, |accepted|, order.(size := 0))), a) == RestingSum(own, a)
  {
    var taker := Some(|accepted|);
    AcceptedSumGrows(accepted, order, a);
    DrainBalances(taker, s, !order.isBuySide, n, a);
    TradedSumConcat(trades, TradesOf(taker, s, n), a);
    InsertBalances(order.isBuySide, own, Entry(slot, |accepted|, order.(size := order.size - n)), a);
  }

  lemma CancelBalances(b: Book, capacity: nat, slot: nat, a: Account)
    requires Invariant(b, capacity) && Cancellable(b, slot)
    ensures Balanced(CancelOrder(b, slot), a)
  {
    assert Balanced(b, a);
    if Resting(b, slot) {
      var isBuy := slot in Slots(b.bids);
      var s := SideOf(b, isBuy);
      var e := Find(s, slot);
      SidesOfBook(b, capacity, isBuy);
      DeleteBalances(s, slot, a);
      CancelledSumGrows(b.cancelled, Cancellation(e.stamp, isBuy, e.order.size), a);
    } else {
      var e := b.idle[slot];
      CancelledSumGrows(b.cancelled, Cancellation(e.stamp, e.order.isBuySide, e.order.size), a);
    }
  }

  // ---------- The operations ----------

  lemma MatchKeepsInvariant(b: Book, capacity: nat, isBuy: bool, price: uint64, size: nat, orderType: OrderType, start: nat)
    requires Invariant(b, capacity)
    ensures Invariant(MatchOrder(b, isBuy, price, size, orderType, start, None).0, capacity)
  {
    var n := MatchAmount(b, isBuy, price, size, orderType, start);
    var reach := ReachOf(isBuy, orderType, price);
    var s := SideOf(b, !isBuy);
    var b' := Consume(b, !isBuy, None, n);
    SidesOfBook(b, capacity, !isBuy);
    VolumeWithin(s, reach, Everything);
    SideIsReachable(b.accepted, s, isBuy, orderType, price);
    DrainKeepsSide(b.accepted, s, !isBuy, n);
    DrainMakesProperTrades(b.accepted, s, isBuy, None, reach, n);
    ConsumeKeepsUncrossed(b, capacity, !isBuy, None, n);
    forall x: nat ensures Places(b', x) == if x < capacity then 1 else 0 {
      ConsumeKeepsSlots(b, !isBuy, None, n, x);
    }
    forall a: Account ensures Balanced(b', a) {
      MatchBalances(b, capacity, !isBuy, n, a);
    }
  }

  lemma AddKeepsSlots(b: Book, capacity: nat, order: Order, x: nat)
    requires Invariant(b, capacity) && b.free != []
    ensures Places(AddOrder(b, order).0, x) == Places(b, x)
  {
    var n, slot := MatchedOnArrival(b, order), b.free[0];
    var b1 := Admit(b, order);
    AdmitKeepsSlots(b, order, capacity, x);
    ConsumeKeepsSlots(b1, !order.isBuySide, Some(|b.accepted|), n, x);
    SettleKeepsSlots(Consume(b1, !order.isBuySide, Some(|b.accepted|), n), slot, n, x);
  }

  lemma AddKeepsSides(b: Book, capacity: nat, order: Order)
    requires Invariant(b, capacity) && b.free != [] && order.listNode == DETACHED
    ensures var b' := AddOrder(b, order).0;
      SideOk(b'.accepted, b'.bids, true) && SideOk(b'.accepted, b'.asks, false)
  {
    var isBuy, stamp := order.isBuySide, |b.accepted|;
    var s, own := SideOf(b, !isBuy), SideOf(b, isBuy);
    var n := MatchedOnArrival(b, order);
    var accepted := b.accepted + [order];
    AddOrderPlaces(b, order);
    SidesOfBook(b, capacity, isBuy);
    SidesOfBook(b, capacity, !isBuy);
    MoreAcceptedKeepsSide(b.accepted, order, s, !isBuy);
    MoreAcceptedKeepsSide(b.accepted, order, own, isBuy);
    DrainKeepsSide(accepted, s, !isBuy, n);
    if n < order.size {
      InsertKeepsSide(accepted, own, isBuy, Entry(b.free[0], stamp, order.(size := order.size - n)));
    }
  }

  lemma AddKeepsIdle(b: Book, capacity: nat, order: Order)
    requires Invariant(b, capacity) && b.free != [] && order.listNode == DETACHED
    ensures IdleOk(AddOrder(b, order).0)
  {
    AddOrderPlaces(b, order);
    var b' := AddOrder(b, order).0;
    forall x | x in b'.idle
      ensures b'.idle[x].slot == x && EntryOk(b'.accepted, b'.idle[x]) && b'.idle[x].order.size == 0
    {
      if x != b.free[0] {
        assert b'.idle[x] == b.idle[x] && EntryOk(b.accepted, b.idle[x]);
      }
    }
  }

  lemma AddKeepsTrades(b: Book, capacity: nat, order: Order)
    requires Invariant(b, capacity) && b.free != []
    ensures TradesOk(AddOrder(b, order).0)
  {
    var isBuy, stamp := order.isBuySide, |b.accepted|;
    var s, n := SideOf(b, !isBuy), MatchedOnArrival(b, order);
    var accepted := b.accepted + [order];
    AddOrderPlaces(b, order);
    SidesOfBook(b, capacity, !isBuy);
    MoreAcceptedKeepsSide(b.accepted, order, s, !isBuy);
    SideIsReachable(accepted, s, isBuy, order.orderType, order.price);
    DrainMakesProperTrades(accepted, s, isBuy, Some(stamp), ReachOf(isBuy, order.orderType, order.price), n);
    var trades := AddOrder(b, order).0.trades;
    forall i | 0 <= i < |trades| ensures TradeOk(accepted, trades[i]) {
      assert i < |b.trades| ==> trades[i] == b.trades[i] && TradeOk(b.accepted, b.trades[i]);
    }
  }

  lemma AddKeepsInvariant(b: Book, capacity: nat, order: Order)
    requires Invariant(b, capacity) && order.listNode == DETACHED
    ensures Invariant(AddOrder(b, order).0, capacity)
  {
    if b.free != [] {
      var b' := AddOrder(b, order).0;
      AddKeepsSides(b, capacity, order);
      AddKeepsIdle(b, capacity, order);
      AddKeepsTrades(b, capacity, order);
      AddKeepsUncrossed(b, capacity, order);
      forall x: nat ensures Places(b', x) == if x < capacity then 1 else 0 {
        AddKeepsSlots(b, capacity, order, x);
      }
      forall a: Account ensures Balanced(b', a) {
        AddBalances(b, capacity, order, a);
      }
    }
  }

  lemma CancelKeepsInvariant(b: Book, capacity: nat, slot: nat)
    requires Invariant(b, capacity) && Cancellable(b, slot)
    ensures Invariant(CancelOrder(b, slot), capacity)
  {
    var b' := CancelOrder(b, slot);
    if Resting(b, slot) {
      var isBuy := slot in Slots(b.bids);
      SidesOfBook(b, capacity, isBuy);
      DeleteKeepsSide(b.accepted, SideOf(b, isBuy), isBuy, slot);
    }
    CancelKeepsUncrossed(b, capacity, slot);
    forall x: nat ensures Places(b', x) == if x < capacity then 1 else 0 {
      CancelKeepsSlots(b, slot, x);
    }
    forall a: Account ensures Balanced(b', a) {
      CancelBalances(b, capacity, slot, a);
    }
  }

  lemma OpenedIsValid(capacity: nat)
    ensures Invariant(Opened(capacity), capacity)
  {
    forall x: nat ensures Places(Opened(capacity), x) == if x < capacity then 1 else 0 {
      IotaCount(capacity, x);
    }
  }
}

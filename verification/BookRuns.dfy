/** What holds after every run of the public operations. */
module BookRuns {
  import opened Basics
  import opened Orders
  import opened PriceTime
  import opened Books
  import opened BookInvariants
  import opened BookSteps
  import opened CallMeaning

  // ---------- The invariant over runs ----------

  lemma StepKeepsInvariant(b: Book, capacity: nat, op: Op)
    requires Invariant(b, capacity) && Enabled(b, op)
    ensures Invariant(Step(b, op).0, capacity)
  {
    hide Invariant;
    match op
    case Add(order) => AddKeepsInvariant(b, capacity, order);
    case Cancel(target) =>
      if target.Some? {
        CancelKeepsInvariant(b, capacity, target.value);
      }
    case Match(isBuy, price, size, orderType, start) =>
      MatchKeepsInvariant(b, capacity, isBuy, price, size, orderType, start);
  }

  lemma {:induction false} RunKeepsInvariant(b: Book, capacity: nat, ops: seq<Op>)
    requires Invariant(b, capacity) && Runs(b, ops)
    ensures Invariant(After(b, ops), capacity)
    decreases |ops|
  {
    hide Invariant;
    if ops != [] {
      StepKeepsInvariant(b, capacity, ops[0]);
      RunKeepsInvariant(Step(b, ops[0]).0, capacity, ops[1..]);
    }
  }

  /** Runs grow one call at a time: a call may follow a run exactly when the book then reached enables it,
      and it makes its step from there. */
  lemma {:induction false} RunExtends(b: Book, ops: seq<Op>, op: Op)
    ensures Runs(b, []) && After(b, []) == b && Replies(b, []) == []
    ensures Runs(b, ops + [op]) <==> Runs(b, ops) && Enabled(After(b, ops), op)
    ensures Runs(b, ops + [op]) ==>
      && After(b, ops + [op]) == Step(After(b, ops), op).0
      && Replies(b, ops + [op]) == Replies(b, ops) + [Step(After(b, ops), op).1]
    decreases |ops|
  {
    hide Step, Enabled;
    if ops == [] {
      assert ops + [op] == [op] && [op][1..] == [];
    } else {
      assert (ops + [op])[1..] == ops[1..] + [op];
      if Enabled(b, ops[0]) {
        var b', reply := Step(b, ops[0]).0, Step(b, ops[0]).1;
        RunExtends(b', ops[1..], op);
        if Runs(b, ops + [op]) {
          var last := Step(After(b', ops[1..]), op).1;
          assert [reply] + (Replies(b', ops[1..]) + [last]) == [reply] + Replies(b', ops[1..]) + [last];
        }
      }
    }
  }

  lemma EveryRunIsSound(capacity: nat, ops: seq<Op>)
    requires Runs(Opened(capacity), ops)
    ensures Invariant(After(Opened(capacity), ops), capacity)
  {
    hide Invariant;
    OpenedIsValid(capacity);
    RunKeepsInvariant(Opened(capacity), capacity, ops);
  }

  /** In no reachable state is any bid at or above any ask, whatever mix of Limit and Market orders,
      cancellations and direct matches led there. */
  lemma NeverCrossed(capacity: nat, ops: seq<Op>, i: nat, j: nat)
    requires Runs(Opened(capacity), ops)
    requires var b := After(Opened(capacity), ops); i < |b.bids| && j < |b.asks|
    ensures var b := After(Opened(capacity), ops);
      b.bids[i].order.price < b.asks[j].order.price
  {
    EveryRunIsSound(capacity, ops);
    var b := After(Opened(capacity), ops);
    BestIsFirst(b.accepted, b.bids, true, i);
    BestIsFirst(b.accepted, b.asks, false, j);
  }

  /** The free slots, the resting orders and the orders with their owners always add up to the pool,
      and an order is refused exactly when no slot is free; a refusal changes nothing. */
  lemma SlotAccounting(capacity: nat, ops: seq<Op>, order: Order)
    requires Runs(Opened(capacity), ops)
    ensures var b := After(Opened(capacity), ops);
      && |b.free| + |b.bids| + |b.asks| + |b.idle| == capacity
      && (AddOrder(b, order).1 == None <==> |b.bids| + |b.asks| + |b.idle| == capacity)
      && (AddOrder(b, order).1 == None ==> AddOrder(b, order).0 == b)
      && (forall x: nat :: AddOrder(b, order).1 == Some(x) ==> x < capacity && !Resting(b, x) && x !in b.idle)
  {
    EveryRunIsSound(capacity, ops);
    var b := After(Opened(capacity), ops);
    SlotsAddUp(b, capacity);
    if b.free != [] {
      SlotIsInOnePlace(b, capacity, b.free[0]);
    }
  }

  // ---------- Quantities ----------

  lemma {:induction false} AcceptedOfOne(accepted: seq<Order>, stamp: nat)
    ensures AcceptedSum(accepted, One(stamp)) == if stamp < |accepted| then accepted[stamp].size else 0
  {
    if accepted != [] {
      AcceptedOfOne(accepted[..|accepted| - 1], stamp);
    }
  }

  lemma {:induction false} RestingOfStranger(s: seq<Entry>, stamp: nat)
    requires forall i :: 0 <= i < |s| ==> s[i].stamp != stamp
    ensures RestingSum(s, One(stamp)) == 0
  {
    if s != [] {
      RestingOfStranger(s[1..], stamp);
    }
  }

  /** An order rests at most once. */
  lemma StampsDiffer(accepted: seq<Order>, s: seq<Entry>, isBuy: bool, i: nat, j: nat)
    requires SideOk(accepted, s, isBuy) && i < j < |s|
    ensures s[i].stamp != s[j].stamp
  {
    assert EntryOk(accepted, s[i]) && EntryOk(accepted, s[j]) && Prior(isBuy, s[i], s[j]);
  }

  lemma {:induction false} RestingOfOne(accepted: seq<Order>, s: seq<Entry>, isBuy: bool, i: nat)
    requires SideOk(accepted, s, isBuy) && i < |s|
    ensures RestingSum(s, One(s[i].stamp)) == s[i].order.size
  {
    forall j: nat | j < |s| && j != i ensures s[j].stamp != s[i].stamp {
      if j < i {
        StampsDiffer(accepted, s, isBuy, j, i);
      } else {
        StampsDiffer(accepted, s, isBuy, i, j);
      }
    }
    if i == 0 {
      RestingOfStranger(s[1..], s[0].stamp);
    } else {
      RestingOfOne(accepted, s[1..], isBuy, i - 1);
    }
  }

  /** An order's original size is what it has traded, as maker or taker, what was cancelled of it and
      what is still open: this for a resting order in any reachable state. */
  lemma RestingOrderAddsUp(capacity: nat, ops: seq<Op>, isBuy: bool, i: nat)
    requires Runs(Opened(capacity), ops)
    requires i < |SideOf(After(Opened(capacity), ops), isBuy)|
    ensures var b := After(Opened(capacity), ops);
      var e := SideOf(b, isBuy)[i];
      && e.stamp < |b.accepted|
      && b.accepted[e.stamp].size
         == e.order.size + CancelledSum(b.cancelled, One(e.stamp)) + TradedSum(b.trades, One(e.stamp))
  {
    EveryRunIsSound(capacity, ops);
    var b := After(Opened(capacity), ops);
    var s, other := SideOf(b, isBuy), SideOf(b, !isBuy);
    var stamp := s[i].stamp;
    SidesOfBook(b, capacity, isBuy);
    SidesOfBook(b, capacity, !isBuy);
    assert EntryOk(b.accepted, s[i]) && s[i].order.isBuySide == isBuy;
    forall j | 0 <= j < |other| ensures other[j].stamp != stamp {
      assert EntryOk(b.accepted, other[j]) && other[j].order.isBuySide == !isBuy;
    }
    RestingOfOne(b.accepted, s, isBuy, i);
    RestingOfStranger(other, stamp);
    AcceptedOfOne(b.accepted, stamp);
    assert Balanced(b, One(stamp));
  }

  /** The same for an order that no longer rests: all of it was traded or cancelled. */
  lemma GoneOrderAddsUp(capacity: nat, ops: seq<Op>, stamp: nat)
    requires Runs(Opened(capacity), ops)
    requires var b := After(Opened(capacity), ops);
      && stamp < |b.accepted|
      && (forall i :: 0 <= i < |b.bids| ==> b.bids[i].stamp != stamp)
      && (forall i :: 0 <= i < |b.asks| ==> b.asks[i].stamp != stamp)
    ensures var b := After(Opened(capacity), ops);
      b.accepted[stamp].size == CancelledSum(b.cancelled, One(stamp)) + TradedSum(b.trades, One(stamp))
  {
    EveryRunIsSound(capacity, ops);
    var b := After(Opened(capacity), ops);
    RestingOfStranger(b.bids, stamp);
    RestingOfStranger(b.asks, stamp);
    AcceptedOfOne(b.accepted, stamp);
    assert Balanced(b, One(stamp));
  }

  lemma {:induction false} RestingTotals(s: seq<Entry>, isBuy: bool)
    requires forall i :: 0 <= i < |s| ==> s[i].order.isBuySide == isBuy
    ensures RestingSum(s, Everyone) == RestingSum(s, Side(isBuy)) == Volume(s, Everything)
    ensures RestingSum(s, Side(!isBuy)) == 0
  {
    if s != [] {
      RestingTotals(s[1..], isBuy);
    }
  }

  ghost predicate AllTaken(trades: seq<Trade>) {
    forall i :: 0 <= i < |trades| ==> trades[i].taker.Some?
  }

  /** When every trade is between two orders, each side trades the same volume. */
  lemma {:induction false} TradedTotals(trades: seq<Trade>)
    requires AllTaken(trades)
    ensures TradedSum(trades, Side(true)) == TradedSum(trades, Side(false)) == TradedAmount(trades)
    ensures TradedSum(trades, Everyone) == 2 * TradedAmount(trades)
  {
    if trades != [] {
      TradedTotals(trades[1..]);
    }
  }

  lemma {:induction false} TakersAreKept(taker: Option<nat>, s: seq<Entry>, n: nat)
    ensures forall i :: 0 <= i < |TradesOf(taker, s, n)| ==> TradesOf(taker, s, n)[i].taker == taker
    decreases |s|
  {
    if s != [] && n >= s[0].order.size {
      TakersAreKept(taker, s[1..], n - s[0].order.size);
    }
  }

  predicate NoDirectMatch(ops: seq<Op>) {
    forall i :: 0 <= i < |ops| ==> !ops[i].Match?
  }

  lemma {:induction false} RunTakesAll(b: Book, ops: seq<Op>)
    requires Runs(b, ops) && NoDirectMatch(ops) && AllTaken(b.trades)
    ensures AllTaken(After(b, ops).trades)
    decreases |ops|
  {
    if ops != [] {
      var b' := Step(b, ops[0]).0;
      if ops[0].Add? && b.free != [] {
        AddOrderPlaces(b, ops[0].order);
        TakersAreKept(Some(|b.accepted|), SideOf(b, !ops[0].order.isBuySide), MatchedOnArrival(b, ops[0].order));
      }
      RunTakesAll(b', ops[1..]);
    }
  }

  /** Conservation over every run of adds and cancellations: what was accepted rests, was cancelled or
      was traded, in total and on each side, and the two sides traded the same volume. */
  lemma RunConserves(capacity: nat, ops: seq<Op>)
    requires Runs(Opened(capacity), ops) && NoDirectMatch(ops)
    ensures var b := After(Opened(capacity), ops);
      var traded := TradedAmount(b.trades);
      && AcceptedSum(b.accepted, Everyone)
         == Volume(b.bids, Everything) + Volume(b.asks, Everything) + CancelledSum(b.cancelled, Everyone) + 2 * traded
      && AcceptedSum(b.accepted, Side(true))
         == Volume(b.bids, Everything) + CancelledSum(b.cancelled, Side(true)) + traded
      && AcceptedSum(b.accepted, Side(false))
         == Volume(b.asks, Everything) + CancelledSum(b.cancelled, Side(false)) + traded
  {
    EveryRunIsSound(capacity, ops);
    RunTakesAll(Opened(capacity), ops);
    var b := After(Opened(capacity), ops);
    RestingTotals(b.bids, true);
    RestingTotals(b.asks, false);
    TradedTotals(b.trades);
    assert Balanced(b, Everyone) && Balanced(b, Side(true)) && Balanced(b, Side(false));
  }

  // ---------- Priority ----------

  /** At one price, orders stand in order of arrival. */
  lemma ArrivalOrder(capacity: nat, ops: seq<Op>, isBuy: bool, i: nat, j: nat)
    requires Runs(Opened(capacity), ops)
    requires var s := SideOf(After(Opened(capacity), ops), isBuy);
      i < |s| && j < |s| && s[i].order.price == s[j].order.price
    ensures var s := SideOf(After(Opened(capacity), ops), isBuy);
      i < j <==> s[i].stamp < s[j].stamp
  {
    EveryRunIsSound(capacity, ops);
    var b := After(Opened(capacity), ops);
    SidesOfBook(b, capacity, isBuy);
    var s := SideOf(b, isBuy);
    assert i < j ==> Prior(isBuy, s[i], s[j]);
    assert j < i ==> Prior(isBuy, s[j], s[i]);
  }

  lemma {:induction false} HistoryGrows(b: Book, ops: seq<Op>)
    requires Runs(b, ops)
    ensures b.accepted <= After(b, ops).accepted
    decreases |ops|
  {
    if ops != [] {
      HistoryGrows(Step(b, ops[0]).0, ops[1..]);
    }
  }

  /** Nothing that happens later, partial fills and cancellations of others included, changes which of
      two resting orders comes first. */
  lemma PriorityIsKept(b: Book, capacity: nat, ops: seq<Op>, isBuy: bool, i: nat, j: nat, i': nat, j': nat)
    requires Invariant(b, capacity) && Runs(b, ops)
    requires i < j < |SideOf(b, isBuy)|
    requires var t := SideOf(After(b, ops), isBuy);
      && i' < |t| && j' < |t|
      && t[i'].stamp == SideOf(b, isBuy)[i].stamp && t[j'].stamp == SideOf(b, isBuy)[j].stamp
    ensures i' < j'
  {
    hide Invariant, After, Runs;
    RunKeepsInvariant(b, capacity, ops);
    HistoryGrows(b, ops);
    var b' := After(b, ops);
    SidesOfBook(b, capacity, isBuy);
    SidesOfBook(b', capacity, isBuy);
    SameOrderLater(b.accepted, b'.accepted, SideOf(b, isBuy), SideOf(b', isBuy), isBuy, i, j, i', j');
  }

  lemma SameOrderLater(accepted: seq<Order>, accepted': seq<Order>, s: seq<Entry>, t: seq<Entry>, isBuy: bool,
                       i: nat, j: nat, i': nat, j': nat)
    requires accepted <= accepted' && SideOk(accepted, s, isBuy) && SideOk(accepted', t, isBuy)
    requires i < j < |s| && i' < |t| && j' < |t| && t[i'].stamp == s[i].stamp && t[j'].stamp == s[j].stamp
    ensures i' < j'
  {
    assert EntryOk(accepted, s[i]) && EntryOk(accepted, s[j]);
    assert EntryOk(accepted', t[i']) && EntryOk(accepted', t[j']);
    assert Prior(isBuy, s[i], s[j]);
  }

  /** When the i-th trade of a sweep happens, the list has lost exactly the orders of the trades before. */
  lemma {:induction false} TradePoint(taker: Option<nat>, s: seq<Entry>, n: nat, i: nat)
    requires AllPositive(s) && i < |TradesOf(taker, s, n)|
    ensures i < |s| && Drain(s, TradedAmount(TradesOf(taker, s, n)[..i])) == s[i..]
    ensures TradesOf(taker, s, n)[i].maker == s[i].stamp && TradesOf(taker, s, n)[i].price == s[i].order.price
    decreases |s|
  {
    if i > 0 {
      var size := s[0].order.size;
      var rest := TradesOf(taker, s[1..], n - size);
      TradePoint(taker, s[1..], n - size, i - 1);
      assert TradesOf(taker, s, n)[..i][1..] == rest[..i - 1];
      assert TradedAmount(TradesOf(taker, s, n)[..i]) == size + TradedAmount(rest[..i - 1]);
    }
  }

  /** No trade-through: each trade an incoming order makes is with the order that, at that moment, has
      the best price and among those the earliest arrival; prices only get worse along the sweep, and
      none lies outside what the order accepts. */
  lemma NoTradeThrough(b: Book, capacity: nat, order: Order, i: nat)
    requires Invariant(b, capacity) && b.free != []
    requires i < |TradesOf(Some(|b.accepted|), SideOf(b, !order.isBuySide), MatchedOnArrival(b, order))|
    ensures var s, n := SideOf(b, !order.isBuySide), MatchedOnArrival(b, order);
      var trades := TradesOf(Some(|b.accepted|), s, n);
      var now := Drain(s, TradedAmount(trades[..i]));
      && AddOrder(b, order).0.trades == b.trades + trades
      && now != [] && trades[i].maker == now[0].stamp && trades[i].price == now[0].order.price
      && (forall j :: 0 < j < |now| ==>
            || (now[0].order.price == now[j].order.price && now[0].stamp < now[j].stamp)
            || if order.isBuySide then now[0].order.price < now[j].order.price else now[0].order.price > now[j].order.price)
      && (forall j :: 0 <= j < i ==>
            if order.isBuySide then trades[j].price <= trades[i].price else trades[j].price >= trades[i].price)
      && (order.orderType == Limit ==>
            if order.isBuySide then trades[i].price <= order.price else trades[i].price >= order.price)
  {
    hide Invariant, Drain, TradesOf, Volume, AddOrder, Sweeps, FreesTheFront;
    var isBuy := order.isBuySide;
    var s, n := SideOf(b, !isBuy), MatchedOnArrival(b, order);
    var taker := Some(|b.accepted|);
    SidesOfBook(b, capacity, !isBuy);
    AddOrderPlaces(b, order);
    TradePoint(taker, s, n, i);
    BestOfTheRest(b.accepted, s, isBuy, i);
    forall j: nat | j < i
      ensures var trades := TradesOf(taker, s, n);
        if isBuy then trades[j].price <= trades[i].price else trades[j].price >= trades[i].price
    {
      TradePoint(taker, s, n, j);
      assert Prior(!isBuy, s[j], s[i]);
    }
    FillSweeps(b.accepted, s, isBuy, order.orderType, order.price, order.size, taker);
    SweptPrice(isBuy, order.orderType, order.price, order.size, taker, s, Drain(s, n), TradesOf(taker, s, n), n, i);
  }

  /** On a sorted side each order has the best price of those from it on, and came first at that price. */
  lemma BestOfTheRest(accepted: seq<Order>, s: seq<Entry>, isBuy: bool, i: nat)
    requires SideOk(accepted, s, !isBuy) && i < |s|
    ensures var now := s[i..];
      forall j :: 0 < j < |now| ==>
        || (now[0].order.price == now[j].order.price && now[0].stamp < now[j].stamp)
        || if isBuy then now[0].order.price < now[j].order.price else now[0].order.price > now[j].order.price
  {
    forall j | 0 < j < |s| - i ensures Prior(!isBuy, s[i], s[i..][j]) {
      assert s[i..][j] == s[i + j];
    }
  }

  lemma SweptPrice(isBuy: bool, orderType: OrderType, price: uint64, wanted: nat, taker: Option<nat>,
                   s: seq<Entry>, rest: seq<Entry>, trades: seq<Trade>, filled: nat, i: nat)
    requires Sweeps(isBuy, orderType, price, wanted, taker, s, rest, trades, filled) && i < |trades|
    ensures orderType == Limit ==> if isBuy then trades[i].price <= price else trades[i].price >= price
  {
  }

  // ---------- Splitting and undoing ----------

  /** Same orders in the same places: all that memory shows of a book. */
  predicate SamePlaces(b: Book, b': Book) {
    b.bids == b'.bids && b.asks == b'.asks && b.idle == b'.idle && b.free == b'.free
  }

  /** The quantity matched is what is wanted or all there is for it: every order for a Market order,
      those priced at or inside its limit for a Limit order.  Starting from a quantity already matched
      only shifts the total. */
  lemma ExactFill(b: Book, isBuy: bool, price: uint64, size: nat, orderType: OrderType, start: nat, taker: Option<nat>)
    requires start <= size
    ensures var (b', total) := MatchOrder(b, isBuy, price, size, orderType, start, taker);
      && (orderType == Market && isBuy ==> total == start + Min(size - start, TotalSize(b.asks)))
      && (orderType == Market && !isBuy ==> total == start + Min(size - start, TotalSize(b.bids)))
      && (orderType == Limit && isBuy ==> total == start + Min(size - start, SizeUpTo(b.asks, price)))
      && (orderType == Limit && !isBuy ==> total == start + Min(size - start, SizeFrom(b.bids, price)))
      && (b', total - start) == MatchOrder(b, isBuy, price, size - start, orderType, 0, taker)
  {
    VolumesAreSizes(SideOf(b, !isBuy), price);
  }

  /** Matching `a` and then `c` leaves the book that matching `a + c` leaves, and the totals add up. */
  lemma MatchesCompose(b: Book, capacity: nat, isBuy: bool, price: uint64, a: nat, c: nat, orderType: OrderType)
    requires Invariant(b, capacity)
    ensures var (b1, m1) := MatchOrder(b, isBuy, price, a, orderType, 0, None);
      var (b2, m2) := MatchOrder(b1, isBuy, price, c, orderType, 0, None);
      var (whole, m) := MatchOrder(b, isBuy, price, a + c, orderType, 0, None);
      SamePlaces(b2, whole) && m1 + m2 == m
  {
    hide Drain, Emptied, TradesOf, Volume, Release, Invariant;
    var s, reach := SideOf(b, !isBuy), ReachOf(isBuy, orderType, price);
    SidesOfBook(b, capacity, !isBuy);
    SideIsReachable(b.accepted, s, isBuy, orderType, price);
    var first := FillAmount(s, reach, a);
    var second := FillAmount(Drain(s, first), reach, c);
    SweepsCompose(s, reach, a, c);
    ReleaseConcat(b.free, Emptied(s, first), Emptied(Drain(s, first), second));
    assert MatchAmount(b, isBuy, price, a, orderType, 0) == first;
    var b1 := MatchOrder(b, isBuy, price, a, orderType, 0, None).0;
    assert SideOf(b1, !isBuy) == Drain(s, first);
    assert MatchAmount(b1, isBuy, price, c, orderType, 0) == second;
    assert MatchAmount(b, isBuy, price, a + c, orderType, 0) == first + second;
  }

  /** An order that rests without matching and is cancelled at once leaves no trace but the history. */
  lemma RestThenCancel(b: Book, capacity: nat, order: Order)
    requires Invariant(b, capacity) && b.free != []
    requires order.size > 0 && MatchedOnArrival(b, order) == 0
    ensures var (b1, slot) := AddOrder(b, order);
      && slot == Some(b.free[0]) && Resting(b1, slot.value)
      && var b2 := CancelOrder(b1, slot.value);
         && SamePlaces(b2, b)
         && b2.accepted == b.accepted + [order] && b2.trades == b.trades
         && b2.cancelled == b.cancelled + [Cancellation(|b.accepted|, order.isBuySide, order.size)]
  {
    hide Insert, Delete, Find, Slots;
    var slot, isBuy := b.free[0], order.isBuySide;
    var own, e := SideOf(b, isBuy), Entry(slot, |b.accepted|, order);
    SlotIsInOnePlace(b, capacity, slot);
    AddOrderPlaces(b, order);
    DeleteUndoesInsert(isBuy, own, e);
    assert Shrunk(e, 0) == e;
    FindInserted(isBuy, own, e);
    assert b.trades + [] == b.trades;
    var b1 := AddOrder(b, order).0;
    assert b.idle[slot := e] - {slot} == b.idle;
    assert SideOf(b1, !isBuy) == SideOf(b, !isBuy) && b1.idle == b.idle;
  }

  lemma {:induction false} FindInserted(isBuy: bool, s: seq<Entry>, e: Entry)
    requires e.slot !in Slots(s)
    ensures e.slot in Slots(Insert(isBuy, s, e)) && Find(Insert(isBuy, s, e), e.slot) == e
  {
    var t := Insert(isBuy, s, e);
    if s == [] || BetterPrice(isBuy, e.order.price, s[0].order.price) {
      assert Slots(t)[0] == e.slot;
    } else {
      assert s[0].slot == Slots(s)[0] && Slots(s[1..]) == Slots(s)[1..];
      FindInserted(isBuy, s[1..], e);
      assert Slots(t) == [s[0].slot] + Slots(Insert(isBuy, s[1..], e));
    }
  }

  function HugeAsk(id: uint64): Order {
    Order(id, 0, 0x8000_0000, 100, false, Limit, DETACHED)
  }

  /** Two accepted orders whose level is shown with depth zero. */
  lemma ShownDepthMayWrap()
    ensures var ops := [Add(HugeAsk(1)), Add(HugeAsk(2))];
      && Runs(Opened(2), ops)
      && var b := After(Opened(2), ops);
         Volume(b.asks, Only(100)) == TWO_TO_THE_32 && Wrap(Volume(b.asks, Only(100))) == 0
  {
    var o1, o2 := HugeAsk(1), HugeAsk(2);
    var b1 := AddOrder(Opened(2), o1).0;
    var b2 := AddOrder(b1, o2).0;
    FirstHugeAsk(Opened(2), o1);
    SecondHugeAsk(b1, o2);
    RunExtends(Opened(2), [], Add(o1));
    RunExtends(Opened(2), [Add(o1)], Add(o2));
    assert [] + [Add(o1)] == [Add(o1)] && [Add(o1)] + [Add(o2)] == [Add(o1), Add(o2)];
  }

  lemma FirstHugeAsk(b: Book, o: Order)
    requires b == Opened(2) && o == HugeAsk(1)
    ensures var b' := AddOrder(b, o).0;
      b'.bids == [] && b'.asks == [Entry(0, 0, o)] && b'.free == [1] && |b'.accepted| == 1
  {
    AddOrderPlaces(b, o);
    assert b.free == [0, 1];
  }

  lemma SecondHugeAsk(b: Book, o: Order)
    requires b.bids == [] && b.asks == [Entry(0, 0, HugeAsk(1))] && b.free == [1] && |b.accepted| == 1
    requires o == HugeAsk(2)
    ensures var b' := AddOrder(b, o).0;
      Volume(b'.asks, Only(100)) == TWO_TO_THE_32
  {
    AddOrderPlaces(b, o);
    var t := AddOrder(b, o).0.asks;
    assert t == [Entry(0, 0, HugeAsk(1)), Entry(1, 1, o)];
    assert t[1..] == [Entry(1, 1, o)] && t[1..][1..] == [];
    assert Volume(t[1..], Only(100)) == 0x8000_0000;
  }
}

/** How a match decomposes: order by order inside a level, and level by level across the side. */
module MatchSteps {
  import opened Basics
  import opened Orders
  import opened PriceTime
  import opened Books
  import opened BookInvariants
  import opened BookSteps
  import opened CallMeaning

  lemma ConsumeNothing(b: Book, isBuy: bool, taker: Option<nat>)
    ensures Consume(b, isBuy, taker, 0) == b
  {
    assert b.trades + TradesOf(taker, SideOf(b, isBuy), 0) == b.trades;
  }

  /** Consuming in two steps, unless an order is split between them. */
  lemma ConsumeTwice(b: Book, isBuy: bool, taker: Option<nat>, n: nat, m: nat)
    requires m == 0 || WholeOrders(SideOf(b, isBuy), n)
    ensures Consume(Consume(b, isBuy, taker, n), isBuy, taker, m) == Consume(b, isBuy, taker, n + m)
  {
    var s := SideOf(b, isBuy);
    DrainDrain(s, n, m);
    EmptiedSplit(s, n, m);
    ReleaseConcat(b.free, Emptied(s, n), Emptied(Drain(s, n), m));
    TradesSplit(taker, s, n, m);
    assert (b.trades + TradesOf(taker, s, n)) + TradesOf(taker, Drain(s, n), m)
        == b.trades + (TradesOf(taker, s, n) + TradesOf(taker, Drain(s, n), m));
  }

  /** The first order of the side, then the others. */
  lemma ConsumeFront(b: Book, isBuy: bool, taker: Option<nat>, n: nat)
    requires SideOf(b, isBuy) != []
    ensures var m := Min(n, SideOf(b, isBuy)[0].order.size);
      Consume(Consume(b, isBuy, taker, m), isBuy, taker, n - m) == Consume(b, isBuy, taker, n)
  {
    var m := Min(n, SideOf(b, isBuy)[0].order.size);
    ConsumeTwice(b, isBuy, taker, m, n - m);
  }

  /** What one order takes from a level and what is then still wanted. */
  lemma FillFront(s: seq<Entry>, p: uint64, wanted: nat)
    requires s != [] && s[0].order.price == p && Reachable(s, Only(p))
    ensures var m := Min(wanted, s[0].order.size);
      && m <= FillAmount(s, Only(p), wanted)
      && FillAmount(Drain(s, m), Only(p), wanted - m) == FillAmount(s, Only(p), wanted) - m
  {
    DrainWithinReach(None, s, Only(p), Min(wanted, s[0].order.size));
  }

  /** Matching against the level at `p` alone: the book and the running total afterwards. */
  ghost function MatchLevel(b: Book, isBuy: bool, p: uint64, size: nat, start: nat, taker: Option<nat>): (Book, nat) {
    var n := if start < size then FillAmount(SideOf(b, isBuy), Only(p), size - start) else 0;
    (Consume(b, isBuy, taker, n), start + n)
  }

  /** Once one order of the level is done, what is left to do comes to the same. */
  lemma LevelLoopStep(b: Book, isBuy: bool, p: uint64, size: nat, start: nat, taker: Option<nat>)
    requires var s := SideOf(b, isBuy); s != [] && s[0].order.price == p && Reachable(s, Only(p))
    requires start < size
    ensures var m := Min(size - start, SideOf(b, isBuy)[0].order.size);
      var b' := Consume(b, isBuy, taker, m);
      && MatchLevel(b', isBuy, p, size, start + m, taker) == MatchLevel(b, isBuy, p, size, start, taker)
      && Reachable(SideOf(b', isBuy), Only(p))
      && (start + m < size && m > 0 ==> |SideOf(b', isBuy)| < |SideOf(b, isBuy)|)
      && |SideOf(b', isBuy)| <= |SideOf(b, isBuy)|
  {
    hide Drain, Emptied, TradesOf, Volume, Release;
    var s, wanted := SideOf(b, isBuy), size - start;
    var m := Min(wanted, s[0].order.size);
    var b' := Consume(b, isBuy, taker, m);
    FillFront(s, p, wanted);
    ConsumeFront(b, isBuy, taker, FillAmount(s, Only(p), wanted));
    assert Min(FillAmount(s, Only(p), wanted), s[0].order.size) == m;
    assert SideOf(b', isBuy) == Drain(s, m);
    assert m < wanted ==> size - (start + m) == wanted - m;
    ReachableRest(s, m, Only(p));
    DrainShortens(s, m);
  }

  lemma DrainShortens(s: seq<Entry>, m: nat)
    requires s != [] && m <= s[0].order.size
    ensures |Drain(s, m)| == if m > 0 && m == s[0].order.size then |s| - 1 else |s|
  {
  }

  lemma LevelIsOver(b: Book, isBuy: bool, p: uint64, size: nat, start: nat, taker: Option<nat>)
    requires start >= size || Volume(SideOf(b, isBuy), Only(p)) == 0
    ensures MatchLevel(b, isBuy, p, size, start, taker) == (b, start)
  {
    ConsumeNothing(b, isBuy, taker);
  }

  lemma ReachableRest(s: seq<Entry>, n: nat, reach: Reach)
    requires Reachable(s, reach)
    ensures Reachable(Drain(s, n), reach)
  {
    var k, m := DrainIsSuffix(s, n);
    var t := Drain(s, n);
    forall i, j | 0 <= i < j < |t| && Covers(reach, t[j].order.price) ensures Covers(reach, t[i].order.price) {
      assert t[i].order.price == s[k + i].order.price && t[j].order.price == s[k + j].order.price;
    }
  }

  /** The best level, then the rest of the side. */
  lemma ConsumeLevel(b: Book, isBuy: bool, taker: Option<nat>, p: uint64, reach: Reach, wanted: nat)
    requires var s := SideOf(b, isBuy); Reachable(s, Only(p)) && Reachable(s, reach)
    requires Covers(reach, p)
    ensures var s := SideOf(b, isBuy);
      var m, n := FillAmount(s, Only(p), wanted), FillAmount(s, reach, wanted);
      && m <= n
      && Consume(Consume(b, isBuy, taker, m), isBuy, taker, n - m) == Consume(b, isBuy, taker, n)
      && FillAmount(Drain(s, m), reach, wanted - m) == n - m
  {
    hide Drain, Emptied, TradesOf, Volume, Release;
    var s := SideOf(b, isBuy);
    var m, n := FillAmount(s, Only(p), wanted), FillAmount(s, reach, wanted);
    VolumeWithin(s, Only(p), reach);
    ReachIsWholeOrders(s, Only(p));
    ConsumeTwice(b, isBuy, taker, m, n - m);
    DrainWithinReach(taker, s, reach, m);
  }

  /** Once the best level is done, what is left to do comes to the same. */
  lemma MatchLoopStep(b: Book, capacity: nat, isBuy: bool, price: uint64, size: nat, orderType: OrderType, start: nat,
                      p: uint64, taker: Option<nat>)
    requires Orderly(b, capacity) && start < size
    requires Reachable(SideOf(b, !isBuy), Only(p)) && Covers(ReachOf(isBuy, orderType, price), p)
    ensures var (b', start') := MatchLevel(b, !isBuy, p, size, start, taker);
      && MatchOrder(b', isBuy, price, size, orderType, start', taker)
         == MatchOrder(b, isBuy, price, size, orderType, start, taker)
      && (start' < size ==> Volume(SideOf(b', !isBuy), Only(p)) == 0)
  {
    hide Drain, Emptied, TradesOf, Volume, Release;
    var s, reach, wanted := SideOf(b, !isBuy), ReachOf(isBuy, orderType, price), size - start;
    SideIsReachable(b.accepted, s, isBuy, orderType, price);
    ConsumeLevel(b, !isBuy, taker, p, reach, wanted);
    var m := FillAmount(s, Only(p), wanted);
    DrainWithinReach(taker, s, Only(p), m);
    var b' := Consume(b, !isBuy, taker, m);
    assert SideOf(b', !isBuy) == Drain(s, m);
    assert MatchAmount(b', isBuy, price, size, orderType, start + m) == FillAmount(s, reach, wanted) - m;
  }

  /** Nothing is matched once the size is reached, the side is empty or its best price is out of reach. */
  lemma MatchIsOver(b: Book, capacity: nat, isBuy: bool, price: uint64, size: nat, orderType: OrderType, start: nat,
                    taker: Option<nat>)
    requires start < size ==> Orderly(b, capacity)
    requires var s := SideOf(b, !isBuy);
      start >= size || s == [] || !Covers(ReachOf(isBuy, orderType, price), s[0].order.price)
    ensures MatchOrder(b, isBuy, price, size, orderType, start, taker) == (b, start)
  {
    ConsumeNothing(b, !isBuy, taker);
    if start < size {
      var s, reach := SideOf(b, !isBuy), ReachOf(isBuy, orderType, price);
      SideIsReachable(b.accepted, s, isBuy, orderType, price);
      NothingInReach(s, reach);
    }
  }

  /** The orders at the best price of a sorted side come first. */
  lemma BestLevelIsFirst(accepted: seq<Order>, s: seq<Entry>, isBuy: bool, p: uint64)
    requires SideOk(accepted, s, isBuy)
    requires forall i :: 0 <= i < |s| ==> !BetterPrice(isBuy, s[i].order.price, p)
    ensures Reachable(s, Only(p))
  {
    forall i, j | 0 <= i < j < |s| && s[j].order.price == p ensures s[i].order.price == p {
      assert Prior(isBuy, s[i], s[j]);
    }
  }

  /** An empty level has no volume, and a level with orders has some. */
  lemma {:induction false} LevelVolume(s: seq<Entry>, p: uint64)
    requires AllPositive(s)
    ensures LevelOf(s, p) == [] <==> Volume(s, Only(p)) == 0
  {
    if s != [] {
      LevelVolume(s[1..], p);
    }
  }

  /** The head of a level whose orders come first is the front of the side. */
  lemma HeadIsFront(s: seq<Entry>, p: uint64)
    requires LevelOf(s, p) != [] && Reachable(s, Only(p))
    ensures s != [] && s[0].order.price == p && LevelOf(s, p)[0] == s[0].slot
  {
    if s[0].order.price != p {
      forall i | 0 <= i < |s| ensures s[i].order.price != p { }
      LevelOfNothing(s, p);
    }
  }

  /** What a book in the middle of a match still satisfies. */
  ghost predicate Orderly(b: Book, capacity: nat) {
    SlotsOk(b, capacity) && SideOk(b.accepted, b.bids, true) && SideOk(b.accepted, b.asks, false)
  }

  /** A match of an orderly book, in plain terms and as a step of a run. */
  lemma MatchMeaning(b: Book, capacity: nat, isBuy: bool, price: uint64, size: uint32, orderType: OrderType, start: uint32,
                     taker: Option<nat>)
    requires Orderly(b, capacity)
    ensures var (b', total) := MatchOrder(b, isBuy, price, size, orderType, start, taker);
      && total >= start && b.trades <= b'.trades
      && Sweeps(isBuy, orderType, price, if start < size then size - start else 0, taker,
                SideOf(b, !isBuy), SideOf(b', !isBuy), b'.trades[|b.trades|..], total - start)
      && (taker == None ==> (b', Matched(total)) == Step(b, Match(isBuy, price, size, orderType, start)))
  {
    hide Sweeps, FreesTheFront, MatchOrder;
    MatchSweeps(b, isBuy, price, size, orderType, start, taker);
  }

  lemma ConsumeKeepsOrder(b: Book, capacity: nat, isBuy: bool, taker: Option<nat>, n: nat)
    requires Orderly(b, capacity)
    ensures Orderly(Consume(b, isBuy, taker, n), capacity)
  {
    var b' := Consume(b, isBuy, taker, n);
    forall x: nat ensures Places(b', x) == if x < capacity then 1 else 0 {
      ConsumeKeepsSlots(b, isBuy, taker, n, x);
    }
    DrainKeepsSide(b.accepted, SideOf(b, isBuy), isBuy, n);
  }

  lemma AdmitKeepsOrder(b: Book, capacity: nat, order: Order)
    requires Orderly(b, capacity) && b.free != []
    ensures Orderly(Admit(b, order), capacity)
    ensures b.free[0] !in Slots(b.bids) && b.free[0] !in Slots(b.asks)
    ensures Admit(b, order).idle[b.free[0]] == Entry(b.free[0], |b.accepted|, order)
  {
    var b' := Admit(b, order);
    forall x: nat ensures Places(b', x) == if x < capacity then 1 else 0 {
      AdmitKeepsSlots(b, order, capacity, x);
    }
    MoreAcceptedKeepsSide(b.accepted, order, b.bids, true);
    MoreAcceptedKeepsSide(b.accepted, order, b.asks, false);
    SlotIsInOnePlace(b, capacity, b.free[0]);
  }

  /** Settling in two steps: first the size is written, then the order rests if anything is left. */
  lemma SettleInTwo(b: Book, slot: nat, matched: nat)
    requires slot in b.idle && matched <= b.idle[slot].order.size
    ensures var e := Shrunk(b.idle[slot], matched);
      var b' := b.(idle := b.idle[slot := e]);
      Settle(b, slot, matched) == if e.order.size > 0 then Settle(b', slot, 0) else b'
  {
    var e := Shrunk(b.idle[slot], matched);
    assert b.idle[slot := e] - {slot} == b.idle - {slot};
    assert Shrunk(e, 0) == e;
  }

  lemma ResizeKeepsOrder(b: Book, capacity: nat, slot: nat, e: Entry)
    requires Orderly(b, capacity) && slot in b.idle
    ensures Orderly(b.(idle := b.idle[slot := e]), capacity)
  {
    var b' := b.(idle := b.idle[slot := e]);
    forall x: nat ensures Places(b', x) == if x < capacity then 1 else 0 {
      assert Places(b', x) == Places(b, x);
    }
  }

  /** Adding an order is taking a slot, matching on the order's behalf, and settling. */
  lemma AddOrderIsAMatch(b: Book, order: Order)
    ensures b.free == [] ==> Books.AddOrder(b, order) == (b, None)
    ensures b.free != [] ==>
      var slot := b.free[0];
      var (b', n) := MatchOrder(Admit(b, order), order.isBuySide, order.price, order.size, order.orderType, 0,
                                Some(|b.accepted|));
      && n <= order.size
      && slot in b'.idle && b'.idle[slot] == Entry(slot, |b.accepted|, order)
      && Books.AddOrder(b, order) == (Settle(b', slot, n), Some(slot))
  {
  }
}

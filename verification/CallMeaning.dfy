/** What each call does to the book in plain terms: prices compared with a limit, sizes added up, orders
    entering and leaving lists. */
module CallMeaning {
  import opened Basics
  import opened Orders
  import opened PriceTime
  import opened Books
  import opened BookInvariants
  import opened BookSteps

  // ---------- How much, and at which prices ----------

  function TotalSize(s: seq<Entry>): nat {
    if s == [] then 0 else s[0].order.size + TotalSize(s[1..])
  }

  /** The sizes of the orders priced at or below a limit, and of those priced at or above it. */
  function SizeUpTo(s: seq<Entry>, limit: uint64): nat {
    if s == [] then 0
    else (if s[0].order.price <= limit then s[0].order.size else 0) + SizeUpTo(s[1..], limit)
  }

  function SizeFrom(s: seq<Entry>, limit: uint64): nat {
    if s == [] then 0
    else (if s[0].order.price >= limit then s[0].order.size else 0) + SizeFrom(s[1..], limit)
  }

  lemma {:induction false} VolumesAreSizes(s: seq<Entry>, limit: uint64)
    ensures Volume(s, Everything) == TotalSize(s)
    ensures Volume(s, AtMost(limit)) == SizeUpTo(s, limit)
    ensures Volume(s, AtLeast(limit)) == SizeFrom(s, limit)
  {
    if s != [] {
      VolumesAreSizes(s[1..], limit);
    }
  }

  /** An incoming order takes `filled` of the `wanted` units from the side `s`, making `trades` and
      leaving `rest`.  A Market order takes from any price; a Limit bid only at or below its price, a
      Limit ask only at or above it.  Each takes all it wants or all there is for it, from the front of
      the list, and what is out of its reach stays as it is. */
  ghost predicate Sweeps(isBuy: bool, orderType: OrderType, price: uint64, wanted: nat, taker: Option<nat>,
                         s: seq<Entry>, rest: seq<Entry>, trades: seq<Trade>, filled: nat)
  {
    && (orderType == Market ==> filled == Min(wanted, TotalSize(s)))
    && (orderType == Limit && isBuy ==> filled == Min(wanted, SizeUpTo(s, price)))
    && (orderType == Limit && !isBuy ==> filled == Min(wanted, SizeFrom(s, price)))
    && TotalSize(rest) == TotalSize(s) - filled
    && TradedAmount(trades) == filled
    && TradesWithPrefix(taker, s, trades)
    && (filled == 0 ==> rest == s && trades == [])
    && (orderType == Limit && isBuy ==>
          && (forall i :: 0 <= i < |trades| ==> trades[i].price <= price)
          && (forall e :: e in s && e.order.price > price ==> e in rest))
    && (orderType == Limit && !isBuy ==>
          && (forall i :: 0 <= i < |trades| ==> trades[i].price >= price)
          && (forall e :: e in s && e.order.price < price ==> e in rest))
    && (filled < wanted ==>
          && (orderType == Market ==> rest == [])
          && (orderType == Limit && isBuy ==> forall i :: 0 <= i < |rest| ==> rest[i].order.price > price)
          && (orderType == Limit && !isBuy ==> forall i :: 0 <= i < |rest| ==> rest[i].order.price < price))
  }

  /** An order is still there as it was, unless there was a trade at its price. */
  lemma UntradedStays(taker: Option<nat>, s: seq<Entry>, n: nat, e: Entry) returns (i: nat)
    requires AllPositive(s) && e in s
    ensures var trades := TradesOf(taker, s, n);
      e in Drain(s, n) || (i < |trades| && trades[i].price == e.order.price)
  {
    hide Drain, TradesOf, Emptied;
    DrainTradesWithPrefix(taker, s, n);
    DrainLeavesTheRest(taker, s, n);
    var trades, rest := TradesOf(taker, s, n), Drain(s, n);
    var j :| 0 <= j < |s| && s[j] == e;
    i := j;
    if i >= |trades| {
      assert rest[|rest| - |s| + i] == e;
    }
  }

  lemma FillSweeps(accepted: seq<Order>, s: seq<Entry>, isBuy: bool, orderType: OrderType, price: uint64, wanted: nat,
                   taker: Option<nat>)
    requires SideOk(accepted, s, !isBuy)
    ensures var n := FillAmount(s, ReachOf(isBuy, orderType, price), wanted);
      Sweeps(isBuy, orderType, price, wanted, taker, s, Drain(s, n), TradesOf(taker, s, n), n)
  {
    hide Drain, TradesOf, Volume, TotalSize, SizeUpTo, SizeFrom;
    var reach := ReachOf(isBuy, orderType, price);
    var n := FillAmount(s, reach, wanted);
    VolumesAreSizes(s, price);
    VolumesAreSizes(Drain(s, n), price);
    VolumeWithin(s, reach, Everything);
    DrainedIsTraded(taker, s, n);
    DrainTradesWithPrefix(taker, s, n);
    SideIsReachable(accepted, s, isBuy, orderType, price);
    DrainWithinReach(taker, s, reach, n);
    LeftoverMeansNothingInReach(accepted, s, isBuy, orderType, price, wanted);
    DrainNothing(taker, s);
    forall e | e in s && !Covers(reach, e.order.price) ensures e in Drain(s, n) {
      var i := UntradedStays(taker, s, n, e);
    }
  }

  lemma DrainNothing(taker: Option<nat>, s: seq<Entry>)
    ensures Drain(s, 0) == s && TradesOf(taker, s, 0) == []
  {
  }

  /** The slots of used-up orders go on the free list one by one, each on top of the one before. */
  lemma {:induction false} LastFreedOnTop(free: seq<nat>, emptied: seq<nat>)
    ensures var free', k := Release(free, emptied), |emptied|;
      |free'| == k + |free| && free'[k..] == free && forall i :: 0 <= i < k ==> free'[i] == emptied[k - 1 - i]
    decreases |emptied|
  {
    if emptied != [] {
      var k := |emptied|;
      LastFreedOnTop([emptied[0]] + free, emptied[1..]);
      var free' := Release(free, emptied);
      assert free'[k - 1..] == [emptied[0]] + free;
      assert free'[k - 1] == free'[k - 1..][0] && free'[k..] == free'[k - 1..][1..];
    }
  }

  /** What a sweep leaves of a side and of the free list.  The orders missing from the front were used
      up, and their slots lie on the free list, the last one on top; the first order left may have become
      smaller, and the others are as they were. */
  ghost predicate FreesTheFront(s: seq<Entry>, rest: seq<Entry>, free: seq<nat>, free': seq<nat>) {
    var m := |s| - |rest|;
    && m >= 0 && |free'| == m + |free| && free'[m..] == free
    && (forall i :: 0 <= i < m ==> free'[i] == s[m - 1 - i].slot)
    && (forall j :: 0 < j < |rest| ==> rest[j] == s[m + j])
    && (rest != [] ==>
          && rest[0].order.size <= s[m].order.size
          && rest[0] == s[m].(order := s[m].order.(size := rest[0].order.size)))
  }

  lemma DrainFreesTheFront(s: seq<Entry>, n: nat, free: seq<nat>)
    ensures FreesTheFront(s, Drain(s, n), free, Release(free, Emptied(s, n)))
  {
    hide Drain, Emptied, Release, Slots;
    var emptied, rest := Emptied(s, n), Drain(s, n);
    var k, m := DrainIsSuffix(s, n);
    DrainKeepsSlots(s, n);
    LastFreedOnTop(free, emptied);
    assert |emptied| == |Slots(s)| - |Slots(rest)| == k;
    forall i: nat | i < k ensures emptied[i] == s[i].slot {
      assert emptied[i] == Slots(s)[i];
      SlotsAt(s, i);
    }
  }

  // ---------- Matching ----------

  /** A direct match touches one side, the free list and the trades, and its total is what it started from
      plus what that side lost. */
  lemma MatchSweeps(b: Book, isBuy: bool, price: uint64, size: nat, orderType: OrderType, start: nat, taker: Option<nat>)
    requires SideOk(b.accepted, SideOf(b, !isBuy), !isBuy)
    ensures var (b', total) := MatchOrder(b, isBuy, price, size, orderType, start, taker);
      && total >= start && b.trades <= b'.trades
      && Sweeps(isBuy, orderType, price, if start < size then size - start else 0, taker,
                SideOf(b, !isBuy), SideOf(b', !isBuy), b'.trades[|b.trades|..], total - start)
      && FreesTheFront(SideOf(b, !isBuy), SideOf(b', !isBuy), b.free, b'.free)
      && SideOf(b', isBuy) == SideOf(b, isBuy) && b'.idle == b.idle
      && b'.accepted == b.accepted && b'.cancelled == b.cancelled
  {
    hide Drain, TradesOf, Volume, Sweeps, FreesTheFront, Emptied;
    var wanted := if start < size then size - start else 0;
    var s := SideOf(b, !isBuy);
    FillSweeps(b.accepted, s, isBuy, orderType, price, wanted, taker);
    var (b', total) := MatchOrder(b, isBuy, price, size, orderType, start, taker);
    assert total - start == FillAmount(s, ReachOf(isBuy, orderType, price), wanted);
    assert b'.trades[|b.trades|..] == TradesOf(taker, s, total - start);
    DrainFreesTheFront(s, total - start, b.free);
  }

  // ---------- One step of a run ----------

  /** Any order may be added and any match called; what may be cancelled is nothing, an order resting on
      either side, or an order with its owner when no order of its side rests at its price. */
  lemma WhatMayBeCalled(b: Book, capacity: nat, op: Op)
    requires Invariant(b, capacity)
    ensures Enabled(b, op) <==> match op
      case Add(order) => order.listNode == DETACHED
      case Match(_, _, _, _, _) => true
      case Cancel(None) => true
      case Cancel(Some(x)) =>
        || (exists i :: 0 <= i < |b.bids| && b.bids[i].slot == x)
        || (exists i :: 0 <= i < |b.asks| && b.asks[i].slot == x)
        || (x in b.idle
            && var o := b.idle[x].order;
               forall i :: 0 <= i < |SideOf(b, o.isBuySide)| ==> SideOf(b, o.isBuySide)[i].order.price != o.price)
  {
    if op.Cancel? && op.target.Some? {
      var x := op.target.value;
      HasSlot(b.bids, x);
      HasSlot(b.asks, x);
      if x in b.idle {
        HasPrice(SideOf(b, b.idle[x].order.isBuySide), b.idle[x].order.price);
      }
    }
  }

  lemma {:induction false} HasSlot(s: seq<Entry>, x: nat)
    ensures x in Slots(s) <==> exists i :: 0 <= i < |s| && s[i].slot == x
  {
    if x in Slots(s) {
      var k := DeletePosition(s, x);
    }
    forall i: nat | i < |s| ensures s[i].slot in Slots(s) {
      SlotsAt(s, i);
    }
  }

  lemma {:induction false} HasPrice(s: seq<Entry>, p: uint64)
    ensures LevelOf(s, p) == [] <==> forall i :: 0 <= i < |s| ==> s[i].order.price != p
  {
    if s != [] {
      HasPrice(s[1..], p);
      if s[0].order.price != p && LevelOf(s[1..], p) == [] {
        forall i: nat | i < |s| ensures s[i].order.price != p {
          assert i > 0 ==> s[i] == s[1..][i - 1];
        }
      } else if s[0].order.price != p {
        var i :| 0 <= i < |s[1..]| && s[1..][i].order.price == p;
        assert s[i + 1].order.price == p;
      }
    }
  }

  /** A direct match in a run: the total replied is its start plus what the opposite side has lost. */
  lemma StepMatches(b: Book, capacity: nat, isBuy: bool, price: uint64, size: uint32, orderType: OrderType, start: uint32)
    requires Invariant(b, capacity)
    ensures var (b', reply) := Step(b, Match(isBuy, price, size, orderType, start));
      var s, s' := SideOf(b, !isBuy), SideOf(b', !isBuy);
      && reply.Matched? && b.trades <= b'.trades
      && reply.total == start + TotalSize(s) - TotalSize(s')
      && Sweeps(isBuy, orderType, price, if start < size then size - start else 0, None,
                s, s', b'.trades[|b.trades|..], TotalSize(s) - TotalSize(s'))
      && FreesTheFront(s, s', b.free, b'.free)
      && SideOf(b', isBuy) == SideOf(b, isBuy) && b'.idle == b.idle
      && b'.accepted == b.accepted && b'.cancelled == b.cancelled
  {
    hide FreesTheFront, MatchOrder;
    SidesOfBook(b, capacity, !isBuy);
    MatchSweeps(b, isBuy, price, size, orderType, start, None);
  }

  /** Where an order stands that rests: behind all at its price or better, in front of all worse. */
  ghost predicate TakesItsPlace(isBuy: bool, s: seq<Entry>, e: Entry, s': seq<Entry>, k: nat) {
    && k <= |s| && s' == s[..k] + [e] + s[k..]
    && (forall i :: 0 <= i < k ==> if isBuy then s[i].order.price >= e.order.price else s[i].order.price <= e.order.price)
    && (forall i :: k <= i < |s| ==> if isBuy then s[i].order.price < e.order.price else s[i].order.price > e.order.price)
  }

  lemma InsertTakesItsPlace(accepted: seq<Order>, s: seq<Entry>, isBuy: bool, e: Entry) returns (k: nat)
    requires SideOk(accepted, s, isBuy)
    ensures TakesItsPlace(isBuy, s, e, Insert(isBuy, s, e), k)
  {
    k := InsertPosition(isBuy, s, e);
    forall i | k <= i < |s| ensures BetterPrice(isBuy, e.order.price, s[i].order.price) {
      assert i > k ==> Prior(isBuy, s[k], s[i]);
    }
  }

  /** The new order's own part of an add: with what is left it takes its place on its side, or, if
      nothing is left, it stays with its owner. */
  lemma AddRests(b: Book, capacity: nat, order: Order) returns (k: nat)
    requires Invariant(b, capacity) && b.free != []
    ensures var b', isBuy, stamp := AddOrder(b, order).0, order.isBuySide, |b.accepted|;
      var own, own', left := SideOf(b, isBuy), SideOf(b', isBuy), order.size - MatchedOnArrival(b, order);
      && 0 <= left <= order.size
      && (left == 0 ==> own' == own && b'.idle == b.idle[b.free[0] := Entry(b.free[0], stamp, order.(size := 0))])
      && (left > 0 ==> b'.idle == b.idle
                       && TakesItsPlace(isBuy, own, Entry(b.free[0], stamp, order.(size := left)), own', k))
  {
    hide Insert, AddOrder, TakesItsPlace, SideOk;
    var isBuy, slot, n := order.isBuySide, b.free[0], MatchedOnArrival(b, order);
    SidesOfBook(b, capacity, isBuy);
    AddOrderPlaces(b, order);
    SlotIsInOnePlace(b, capacity, slot);
    var e := Entry(slot, |b.accepted|, order.(size := order.size - n));
    k := InsertTakesItsPlace(b.accepted, SideOf(b, isBuy), isBuy, e);
    assert b.idle[slot := e] - {slot} == b.idle;
  }

  /** The sweep of an add. */
  lemma AddSweeps(b: Book, capacity: nat, order: Order)
    requires Invariant(b, capacity) && b.free != []
    ensures var b', isBuy, n := AddOrder(b, order).0, order.isBuySide, MatchedOnArrival(b, order);
      && b.trades <= b'.trades
      && Sweeps(isBuy, order.orderType, order.price, order.size, Some(|b.accepted|),
                SideOf(b, !isBuy), SideOf(b', !isBuy), b'.trades[|b.trades|..], n)
      && FreesTheFront(SideOf(b, !isBuy), SideOf(b', !isBuy), b.free[1..], b'.free)
      && b'.accepted == b.accepted + [order] && b'.cancelled == b.cancelled
      && TotalSize(SideOf(b, !isBuy)) - TotalSize(SideOf(b', !isBuy)) == n
  {
    hide Sweeps, Insert, Drain, TradesOf, AddOrder, SideOk, FreesTheFront, Emptied;
    var isBuy, n, taker := order.isBuySide, MatchedOnArrival(b, order), Some(|b.accepted|);
    var s := SideOf(b, !isBuy);
    SidesOfBook(b, capacity, !isBuy);
    AddOrderPlaces(b, order);
    FillSweeps(b.accepted, s, isBuy, order.orderType, order.price, order.size, taker);
    SweptSize(isBuy, order.orderType, order.price, order.size, taker, s, Drain(s, n), TradesOf(taker, s, n), n);
    assert AddOrder(b, order).0.trades[|b.trades|..] == TradesOf(taker, s, n);
    DrainFreesTheFront(s, n, b.free[1..]);
  }

  lemma SweptSize(isBuy: bool, orderType: OrderType, price: uint64, wanted: nat, taker: Option<nat>,
                  s: seq<Entry>, rest: seq<Entry>, trades: seq<Trade>, filled: nat)
    requires Sweeps(isBuy, orderType, price, wanted, taker, s, rest, trades, filled)
    ensures TotalSize(s) - TotalSize(rest) == filled <= wanted
  {
  }

  /** Adding in a run.  Without a free slot nothing happens.  Otherwise the top free slot is the reply,
      the order sweeps the other side, and what is left of it, if anything, rests. */
  lemma StepAdds(b: Book, capacity: nat, order: Order) returns (k: nat)
    requires Invariant(b, capacity) && order.listNode == DETACHED
    ensures var (b', reply) := Step(b, Add(order));
      var isBuy, stamp := order.isBuySide, |b.accepted|;
      var s, s', own, own' := SideOf(b, !isBuy), SideOf(b', !isBuy), SideOf(b, isBuy), SideOf(b', isBuy);
      if b.free == [] then b' == b && reply == Returned(None)
      else
        && reply == Returned(Some(b.free[0])) && b.trades <= b'.trades
        && b'.accepted == b.accepted + [order] && b'.cancelled == b.cancelled
        && var filled := TotalSize(s) - TotalSize(s');
           && 0 <= filled <= order.size
           && Sweeps(isBuy, order.orderType, order.price, order.size, Some(stamp), s, s', b'.trades[|b.trades|..], filled)
           && FreesTheFront(s, s', b.free[1..], b'.free)
           && (filled == order.size ==>
                 own' == own && b'.idle == b.idle[b.free[0] := Entry(b.free[0], stamp, order.(size := 0))])
           && (filled < order.size ==>
                 && b'.idle == b.idle
                 && TakesItsPlace(isBuy, own, Entry(b.free[0], stamp, order.(size := order.size - filled)), own', k))
  {
    hide Sweeps, TakesItsPlace, Invariant, MatchedOnArrival, FreesTheFront;
    k := 0;
    if b.free != [] {
      k := AddRests(b, capacity, order);
      AddSweeps(b, capacity, order);
    }
  }

  /** Cancelling in a run.  Nothing happens for null.  Otherwise the order is gone, from its place on its
      side or from its owner, its slot is on top of the free list, its open size is recorded as cancelled,
      and everything else is as it was. */
  lemma StepCancels(b: Book, capacity: nat, target: Option<nat>) returns (isBuy: bool, k: nat)
    requires Invariant(b, capacity) && Enabled(b, Cancel(target))
    ensures var (b', reply) := Step(b, Cancel(target));
      && reply == Done
      && (target == None ==> b' == b)
      && (target.Some? ==>
            && b'.free == [target.value] + b.free && b'.accepted == b.accepted && b'.trades == b.trades
            && (forall i :: 0 <= i < |b'.bids| ==> b'.bids[i].slot != target.value)
            && (forall i :: 0 <= i < |b'.asks| ==> b'.asks[i].slot != target.value)
            && b'.idle == b.idle - {target.value})
      && (target.Some? && target.value in b.idle ==>
            && b'.bids == b.bids && b'.asks == b.asks
            && var e := b.idle[target.value];
               b'.cancelled == b.cancelled + [Cancellation(e.stamp, e.order.isBuySide, e.order.size)])
      && (target.Some? && target.value !in b.idle ==>
            && var s := SideOf(b, isBuy);
               && k < |s| && s[k].slot == target.value
               && SideOf(b', isBuy) == s[..k] + s[k + 1..] && SideOf(b', !isBuy) == SideOf(b, !isBuy)
               && b'.cancelled == b.cancelled + [Cancellation(s[k].stamp, isBuy, s[k].order.size)])
  {
    hide Delete, Find;
    k, isBuy := 0, false;
    if target.Some? {
      var x := target.value;
      SlotIsInOnePlace(b, capacity, x);
      if Resting(b, x) {
        isBuy := x in Slots(b.bids);
        k := DeletePosition(SideOf(b, isBuy), x);
        CancelledIsGone(b, capacity, x);
        assert b.idle - {x} == b.idle;
      } else {
        CancelledIsGone(b, capacity, x);
      }
    }
  }

  lemma CancelledIsGone(b: Book, capacity: nat, x: nat)
    requires Invariant(b, capacity) && Cancellable(b, x)
    ensures var b' := CancelOrder(b, x);
      && (forall i :: 0 <= i < |b'.bids| ==> b'.bids[i].slot != x)
      && (forall i :: 0 <= i < |b'.asks| ==> b'.asks[i].slot != x)
  {
    hide CancelOrder;
    CancelKeepsInvariant(b, capacity, x);
    var b' := CancelOrder(b, x);
    assert x in b'.free by {
      hide *;
      CancelledIsFree(b, x);
    }
    SlotIsInOnePlace(b', capacity, x);
    forall i: nat | i < |b'.bids| ensures b'.bids[i].slot != x {
      SlotsAt(b'.bids, i);
    }
    forall i: nat | i < |b'.asks| ensures b'.asks[i].slot != x {
      SlotsAt(b'.asks, i);
    }
  }

  lemma CancelledIsFree(b: Book, x: nat)
    requires Cancellable(b, x)
    ensures x in CancelOrder(b, x).free
  {
  }
}

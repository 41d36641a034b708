/** Price-time priority on plain lists: one side of the book is the list of its resting orders, best
    price first and, at one price, earliest arrival first.  Sweeping that list greedily is the
    reference the matching loops are measured against. */
module PriceTime {
  import opened Basics
  import opened Orders

  /** A resting (or returned) order: the slot it occupies, its arrival stamp and its own fields,
      without queue links. */
  datatype Entry = Entry(slot: nat, stamp: nat, order: Order)

  /** The prices a sweep may touch. */
  datatype Reach = Everything | AtMost(limit: uint64) | AtLeast(limit: uint64) | Only(price: uint64)

  predicate Covers(reach: Reach, price: uint64) {
    match reach
    case Everything => true
    case AtMost(limit) => price <= limit
    case AtLeast(limit) => price >= limit
    case Only(p) => price == p
  }

  /** An exchange of `amount` units at the resting order's price.  The taker is None for a call that
      matches on behalf of no order. */
  datatype Trade = Trade(taker: Option<nat>, maker: nat, makerIsBuy: bool, price: uint64, amount: nat)

  function TradeWith(taker: Option<nat>, e: Entry, amount: nat): Trade {
    Trade(taker, e.stamp, e.order.isBuySide, e.order.price, amount)
  }

  function Shrunk(e: Entry, amount: nat): Entry
    requires amount <= e.order.size
  {
    e.(order := e.order.(size := e.order.size - amount))
  }

  // ---------- Consuming the list from the front ----------

  /** The list after `n` units are taken off its front, order by order. */
  function Drain(s: seq<Entry>, n: nat): seq<Entry> {
    if s == [] || n == 0 then s
    else if n < s[0].order.size then [Shrunk(s[0], n)] + s[1..]
    else Drain(s[1..], n - s[0].order.size)
  }

  /** The slots of the orders that are used up on the way, in that order. */
  function Emptied(s: seq<Entry>, n: nat): seq<nat> {
    if s == [] || n == 0 || n < s[0].order.size then []
    else [s[0].slot] + Emptied(s[1..], n - s[0].order.size)
  }

  /** The trades made on the way, in that order. */
  function TradesOf(taker: Option<nat>, s: seq<Entry>, n: nat): seq<Trade>
    decreases |s|
  {
    if s == [] || n == 0 then []
    else if n < s[0].order.size then [TradeWith(taker, s[0], n)]
    else [TradeWith(taker, s[0], s[0].order.size)] + TradesOf(taker, s[1..], n - s[0].order.size)
  }

  /** The free list after the emptied slots are returned one by one, each on top of the others. */
  function Release(free: seq<nat>, emptied: seq<nat>): seq<nat>
    decreases |emptied|
  {
    if emptied == [] then free else Release([emptied[0]] + free, emptied[1..])
  }

  function Slots(s: seq<Entry>): (slots: seq<nat>)
    ensures |slots| == |s|
  {
    if s == [] then [] else [s[0].slot] + Slots(s[1..])
  }

  lemma {:induction false} SlotsAt(s: seq<Entry>, i: nat)
    requires i < |s|
    ensures Slots(s)[i] == s[i].slot && s[i].slot in Slots(s)
  {
    if i > 0 {
      SlotsAt(s[1..], i - 1);
      assert Slots(s)[i] == Slots(s[1..])[i - 1];
    }
    assert Slots(s)[i] in Slots(s);
  }

  /** The slots of the orders resting at one price, in their order. */
  function LevelOf(s: seq<Entry>, price: uint64): seq<nat> {
    if s == [] then []
    else if s[0].order.price == price then [s[0].slot] + LevelOf(s[1..], price)
    else LevelOf(s[1..], price)
  }

  lemma {:induction false} LevelOfNothing(s: seq<Entry>, price: uint64)
    requires forall i :: 0 <= i < |s| ==> s[i].order.price != price
    ensures LevelOf(s, price) == []
  {
    if s != [] {
      LevelOfNothing(s[1..], price);
    }
  }

  /** Total size resting at the prices within reach. */
  function Volume(s: seq<Entry>, reach: Reach): nat {
    if s == [] then 0
    else (if Covers(reach, s[0].order.price) then s[0].order.size else 0) + Volume(s[1..], reach)
  }

  /** `a` trades before `b`: better price, or same price and earlier arrival. */
  predicate Prior(isBuy: bool, a: Entry, b: Entry) {
    || BetterPrice(isBuy, a.order.price, b.order.price)
    || (a.order.price == b.order.price && a.stamp < b.stamp)
  }

  predicate BetterPrice(isBuy: bool, p: uint64, q: uint64) {
    if isBuy then p > q else p < q
  }

  ghost predicate Sorted(isBuy: bool, s: seq<Entry>) {
    forall i, j :: 0 <= i < j < |s| ==> Prior(isBuy, s[i], s[j])
  }

  /** Joining the list behind every order at the same or a better price. */
  function Insert(isBuy: bool, s: seq<Entry>, e: Entry): seq<Entry> {
    if s == [] || BetterPrice(isBuy, e.order.price, s[0].order.price) then [e] + s
    else [s[0]] + Insert(isBuy, s[1..], e)
  }

  /** Leaving the list. */
  function Delete(s: seq<Entry>, slot: nat): seq<Entry> {
    if s == [] then []
    else if s[0].slot == slot then s[1..]
    else [s[0]] + Delete(s[1..], slot)
  }

  function Find(s: seq<Entry>, slot: nat): (e: Entry)
    requires slot in Slots(s)
    ensures e in s && e.slot == slot
  {
    if s[0].slot == slot then s[0] else Find(s[1..], slot)
  }

  /** What an incoming order of size `wanted` gets: all it wants or all that is within reach. */
  function FillAmount(s: seq<Entry>, reach: Reach, wanted: nat): nat {
    Min(wanted, Volume(s, reach))
  }

  ghost predicate AllPositive(s: seq<Entry>) {
    forall i :: 0 <= i < |s| ==> s[i].order.size > 0
  }

  /** No order within reach stands behind one that is not: true of any sorted side for the reach of an
      order coming from the other side. */
  ghost predicate Reachable(s: seq<Entry>, reach: Reach) {
    forall i, j :: 0 <= i < j < |s| && Covers(reach, s[j].order.price) ==> Covers(reach, s[i].order.price)
  }

  // ---------- What draining does ----------

  /** Draining trades with a prefix of the list, one trade per order, in list order.  Every trade but
      the last takes a whole order. */
  ghost predicate TradesWithPrefix(taker: Option<nat>, s: seq<Entry>, trades: seq<Trade>) {
    && |trades| <= |s|
    && (forall i :: 0 <= i < |trades| ==>
          trades[i] == TradeWith(taker, s[i], trades[i].amount) && 0 < trades[i].amount <= s[i].order.size)
    && (forall i :: 0 <= i < |trades| - 1 ==> trades[i].amount == s[i].order.size)
  }

  lemma {:induction false} DrainTradesWithPrefix(taker: Option<nat>, s: seq<Entry>, n: nat)
    requires AllPositive(s)
    ensures TradesWithPrefix(taker, s, TradesOf(taker, s, n))
    decreases |s|
  {
    if s != [] && n >= s[0].order.size {
      DrainTradesWithPrefix(taker, s[1..], n - s[0].order.size);
    }
  }

  /** The last trade takes its whole order or leaves the rest of it at the front of the list.
      Everything behind keeps its size and its place, and exactly the orders taken whole are emptied. */
  ghost predicate LeavesTheRest(s: seq<Entry>, trades: seq<Trade>, rest: seq<Entry>, emptied: seq<nat>) {
    var k := |trades|;
    && k <= |s|
    && if k > 0 && trades[k - 1].amount < s[k - 1].order.size then
         && rest == [Shrunk(s[k - 1], trades[k - 1].amount)] + s[k..]
         && emptied == Slots(s[..k - 1])
       else
         && rest == s[k..]
         && emptied == Slots(s[..k])
  }

  lemma {:induction false} DrainLeavesTheRest(taker: Option<nat>, s: seq<Entry>, n: nat)
    ensures LeavesTheRest(s, TradesOf(taker, s, n), Drain(s, n), Emptied(s, n))
    decreases |s|
  {
    if s != [] && n != 0 && n >= s[0].order.size {
      var n' := n - s[0].order.size;
      DrainLeavesTheRest(taker, s[1..], n');
      OneMoreWholeOrder(taker, s, TradesOf(taker, s[1..], n'), Drain(s[1..], n'), Emptied(s[1..], n'));
    }
  }

  lemma OneMoreWholeOrder(taker: Option<nat>, s: seq<Entry>, trades: seq<Trade>, rest: seq<Entry>, emptied: seq<nat>)
    requires s != [] && LeavesTheRest(s[1..], trades, rest, emptied)
    ensures LeavesTheRest(s, [TradeWith(taker, s[0], s[0].order.size)] + trades, rest, [s[0].slot] + emptied)
  {
    var k := |trades| + 1;
    assert s[1..][k - 1..] == s[k..];
    assert s[..k][1..] == s[1..][..k - 1];
    if k > 1 {
      assert s[..k - 1][1..] == s[1..][..k - 2];
      assert s[1..][k - 2] == s[k - 1];
    }
  }

  /** The traded amounts add up to what was drained. */
  function TradedAmount(trades: seq<Trade>): nat {
    if trades == [] then 0 else trades[0].amount + TradedAmount(trades[1..])
  }

  lemma {:induction false} DrainedIsTraded(taker: Option<nat>, s: seq<Entry>, n: nat)
    requires n <= Volume(s, Everything)
    ensures TradedAmount(TradesOf(taker, s, n)) == n
    ensures Volume(Drain(s, n), Everything) == Volume(s, Everything) - n
    decreases |s|
  {
    if s != [] && n >= s[0].order.size {
      DrainedIsTraded(taker, s[1..], n - s[0].order.size);
    }
  }

  lemma {:induction false} DrainDrain(s: seq<Entry>, n: nat, m: nat)
    ensures Drain(Drain(s, n), m) == Drain(s, n + m)
    decreases |s|
  {
    if s == [] || n == 0 {
    } else if n < s[0].order.size {
      assert Shrunk(s[0], n).order.size == s[0].order.size - n;
      assert n + m < s[0].order.size ==> Shrunk(Shrunk(s[0], n), m) == Shrunk(s[0], n + m);
    } else {
      DrainDrain(s[1..], n - s[0].order.size, m);
    }
  }

  /** The emptied slots are the front of the list's slots; the remaining list holds the others. */
  lemma {:induction false} DrainKeepsSlots(s: seq<Entry>, n: nat)
    ensures Emptied(s, n) + Slots(Drain(s, n)) == Slots(s)
    decreases |s|
  {
    if s != [] && n != 0 && n >= s[0].order.size {
      DrainKeepsSlots(s[1..], n - s[0].order.size);
    }
  }

  lemma EmptiedSplit(s: seq<Entry>, n: nat, m: nat)
    ensures Emptied(s, n) + Emptied(Drain(s, n), m) == Emptied(s, n + m)
  {
    hide Emptied, Drain, Slots;
    DrainDrain(s, n, m);
    DrainKeepsSlots(s, n);
    DrainKeepsSlots(Drain(s, n), m);
    DrainKeepsSlots(s, n + m);
    SameRest(Emptied(s, n) + Emptied(Drain(s, n), m), Emptied(s, n + m), Slots(Drain(s, n + m)));
  }

  lemma SameRest(a: seq<nat>, b: seq<nat>, rest: seq<nat>)
    requires a + rest == b + rest
    ensures a == b
  {
    assert |a| == |b|;
    assert a == (a + rest)[..|a|] && b == (b + rest)[..|b|];
  }

  /** `n` units are a whole number of orders. */
  predicate WholeOrders(s: seq<Entry>, n: nat) {
    n == 0 || (s != [] && n >= s[0].order.size && WholeOrders(s[1..], n - s[0].order.size))
  }

  /** Draining in two steps makes the same trades, provided no order is split between them. */
  lemma {:induction false} TradesSplit(taker: Option<nat>, s: seq<Entry>, n: nat, m: nat)
    requires m == 0 || WholeOrders(s, n)
    ensures TradesOf(taker, s, n) + TradesOf(taker, Drain(s, n), m) == TradesOf(taker, s, n + m)
    decreases |s|
  {
    if m == 0 || n == 0 || s == [] {
    } else {
      TradesSplit(taker, s[1..], n - s[0].order.size, m);
    }
  }

  // ---------- Reach ----------

  lemma {:induction false} VolumeWithin(s: seq<Entry>, narrow: Reach, reach: Reach)
    requires forall p: uint64 :: Covers(narrow, p) ==> Covers(reach, p)
    ensures Volume(s, narrow) <= Volume(s, reach)
  {
    if s != [] {
      VolumeWithin(s[1..], narrow, reach);
    }
  }

  lemma {:induction false} NothingInReach(s: seq<Entry>, reach: Reach)
    requires forall i :: 0 <= i < |s| ==> !Covers(reach, s[i].order.price)
    ensures Volume(s, reach) == 0
  {
    if s != [] {
      NothingInReach(s[1..], reach);
    }
  }

  /** Draining no more than is within reach takes it all from within reach. */
  lemma {:induction false} DrainWithinReach(taker: Option<nat>, s: seq<Entry>, reach: Reach, n: nat)
    requires Reachable(s, reach) && n <= Volume(s, reach)
    ensures Volume(Drain(s, n), reach) == Volume(s, reach) - n
    ensures forall i :: 0 <= i < |TradesOf(taker, s, n)| ==> Covers(reach, TradesOf(taker, s, n)[i].price)
    decreases |s|
  {
    if s == [] || n == 0 {
    } else if !Covers(reach, s[0].order.price) {
      NothingInReach(s, reach);
    } else if n >= s[0].order.size {
      DrainWithinReach(taker, s[1..], reach, n - s[0].order.size);
    }
  }

  /** Once all within reach is gone, the front of the list is out of reach. */
  lemma FrontOutOfReach(s: seq<Entry>, reach: Reach)
    requires AllPositive(s) && Volume(s, reach) == 0
    ensures s == [] || !Covers(reach, s[0].order.price)
  {
  }

  /** All that is within reach is a whole number of orders. */
  lemma {:induction false} ReachIsWholeOrders(s: seq<Entry>, reach: Reach)
    requires Reachable(s, reach)
    ensures WholeOrders(s, Volume(s, reach))
  {
    if s != [] {
      if Covers(reach, s[0].order.price) {
        ReachIsWholeOrders(s[1..], reach);
      } else {
        NothingInReach(s, reach);
      }
    }
  }

  /** Splitting a sweep is invisible: what is left after wanting `a` and then `b` is what is left after
      wanting `a + b`, and the two fills add up. */
  lemma SweepsCompose(s: seq<Entry>, reach: Reach, a: nat, b: nat)
    requires Reachable(s, reach)
    ensures var first := FillAmount(s, reach, a);
      var rest := Drain(s, first);
      var second := FillAmount(rest, reach, b);
      && first + second == FillAmount(s, reach, a + b)
      && Drain(rest, second) == Drain(s, first + second)
      && Emptied(s, first) + Emptied(rest, second) == Emptied(s, first + second)
  {
    hide Emptied, Drain, Volume;
    var first := FillAmount(s, reach, a);
    DrainWithinReach(None, s, reach, first);
    DrainDrain(s, first, FillAmount(Drain(s, first), reach, b));
    EmptiedSplit(s, first, FillAmount(Drain(s, first), reach, b));
  }

  // ---------- The free list ----------

  lemma {:induction false} ReleaseKeepsSlots(free: seq<nat>, emptied: seq<nat>)
    ensures multiset(Release(free, emptied)) == multiset(free) + multiset(emptied)
    decreases |emptied|
  {
    if emptied != [] {
      ReleaseKeepsSlots([emptied[0]] + free, emptied[1..]);
      assert emptied == [emptied[0]] + emptied[1..];
    }
  }

  lemma {:induction false} ReleaseConcat(free: seq<nat>, a: seq<nat>, b: seq<nat>)
    ensures Release(free, a + b) == Release(Release(free, a), b)
    decreases |a|
  {
    if a == [] {
      assert a + b == b;
    } else {
      ReleaseConcat([a[0]] + free, a[1..], b);
      assert (a + b)[1..] == a[1..] + b;
    }
  }

  // ---------- Insertion and deletion ----------

  lemma {:induction false} InsertPosition(isBuy: bool, s: seq<Entry>, e: Entry) returns (k: nat)
    ensures k <= |s| && Insert(isBuy, s, e) == s[..k] + [e] + s[k..]
    ensures forall i :: 0 <= i < k ==> !BetterPrice(isBuy, e.order.price, s[i].order.price)
    ensures k < |s| ==> BetterPrice(isBuy, e.order.price, s[k].order.price)
  {
    if s == [] || BetterPrice(isBuy, e.order.price, s[0].order.price) {
      k := 0;
    } else {
      var k' := InsertPosition(isBuy, s[1..], e);
      k := k' + 1;
      assert s[..k] == [s[0]] + s[1..][..k'];
      forall i | 0 <= i < k ensures !BetterPrice(isBuy, e.order.price, s[i].order.price) {
        assert i > 0 ==> s[i] == s[1..][i - 1];
      }
    }
  }

  /** A newcomer with the latest stamp takes the place price-time priority gives it. */
  lemma InsertSorts(isBuy: bool, s: seq<Entry>, e: Entry)
    requires Sorted(isBuy, s)
    requires forall i :: 0 <= i < |s| ==> s[i].stamp < e.stamp
    ensures Sorted(isBuy, Insert(isBuy, s, e))
  {
    var k := InsertPosition(isBuy, s, e);
    var t := Insert(isBuy, s, e);
    forall i, j | 0 <= i < j < |t| ensures Prior(isBuy, t[i], t[j]) {
      assert i < k ==> t[i] == s[i];
      assert i > k ==> t[i] == s[i - 1];
      assert j < k ==> t[j] == s[j];
      assert j > k ==> t[j] == s[j - 1];
      assert k < |s| && j > k + 1 ==> Prior(isBuy, s[k], s[j - 1]);
    }
  }

  lemma {:induction false} DeletePosition(s: seq<Entry>, slot: nat) returns (k: nat)
    requires slot in Slots(s)
    ensures k < |s| && s[k].slot == slot && s[k] == Find(s, slot)
    ensures Delete(s, slot) == s[..k] + s[k + 1..]
  {
    if s[0].slot == slot {
      k := 0;
    } else {
      var k' := DeletePosition(s[1..], slot);
      k := k' + 1;
      assert s[..k] == [s[0]] + s[1..][..k'];
    }
  }

  /** Taking a new order straight out again leaves the list as it was. */
  lemma {:induction false} DeleteUndoesInsert(isBuy: bool, s: seq<Entry>, e: Entry)
    requires e.slot !in Slots(s)
    ensures e.slot in Slots(Insert(isBuy, s, e))
    ensures Delete(Insert(isBuy, s, e), e.slot) == s
  {
    var t := Insert(isBuy, s, e);
    if s == [] || BetterPrice(isBuy, e.order.price, s[0].order.price) {
      assert Slots(t)[0] == e.slot;
    } else {
      assert s[0].slot == Slots(s)[0] && Slots(s[1..]) == Slots(s)[1..];
      DeleteUndoesInsert(isBuy, s[1..], e);
      assert Slots(t) == [s[0].slot] + Slots(Insert(isBuy, s[1..], e));
    }
  }
}

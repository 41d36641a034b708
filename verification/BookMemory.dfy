/** Memory and book determine each other, and when cancelling an order that does not rest goes wrong. */
module BookMemory {
  import opened Basics
  import opened MemPools
  import opened Orders
  import opened IntrusiveQueues
  import opened PriceTime
  import opened Books
  import opened BookInvariants
  import opened BookSteps
  import opened BookRep
  import opened BookRepSteps
  import opened BookRuns

  // ---------- The book determines the memory ----------

  lemma {:induction false} ChainLinks<T>(cells: seq<Element<T>>, from: nat, free: seq<nat>, i: nat)
    requires Chain(cells, from, free) && i < |free|
    ensures free[i] < |cells|
    ensures cells[free[i]].storage == Link(if i + 1 < |free| then free[i + 1] else |cells|)
    decreases |free|
  {
    if i > 0 {
      ChainLinks(cells, cells[from].storage.next, free[1..], i - 1);
    }
  }

  lemma FreeCellsAgree(cells: Cells, cells': Cells, next: nat, next': nat, free: seq<nat>, x: nat)
    requires PoolRep(cells, next, free) && PoolRep(cells', next', free) && |cells| == |cells'| && x in free
    ensures x < |cells| && cells[x] == cells'[x]
  {
    var i :| 0 <= i < |free| && free[i] == x;
    ChainLinks(cells, next, free, i);
    ChainLinks(cells', next', free, i);
  }

  lemma RestingCellsAgree(cells: Cells, cells': Cells, levels: Levels, levels': Levels, s: seq<Entry>, x: nat)
    requires SideRep(cells, levels, s, {}) && SideRep(cells', levels', s, {}) && x in Slots(s)
    ensures x < |cells| && x < |cells'| && cells[x].storage == cells'[x].storage
  {
    var i := SlotIndex(s, x);
    var k := MemberOfLevel(s, i);
    var p := s[i].order.price;
    assert InCell(cells, s[i]) && InCell(cells', s[i]);
    assert LevelRep(cells, levels, s, p) && LevelRep(cells', levels', s, p);
    assert Linked(cells, LevelOf(s, p), k) && Linked(cells', LevelOf(s, p), k);
  }

  lemma LevelsAgree(cells: Cells, cells': Cells, levels: Levels, levels': Levels, s: seq<Entry>)
    requires SideRep(cells, levels, s, {}) && SideRep(cells', levels', s, {})
    ensures levels == levels'
  {
    forall p: uint64 ensures (p in levels <==> LevelOf(s, p) != []) && (p in levels' <==> LevelOf(s, p) != []) {
      if LevelOf(s, p) != [] {
        var i := LevelMember(s, p, LevelOf(s, p)[0]);
        assert InCell(cells, s[i]) && InCell(cells', s[i]);
      }
    }
    forall p | p in levels ensures p in levels' && levels[p] == levels'[p] {
      assert LevelRep(cells, levels, s, p) && LevelRep(cells', levels', s, p);
    }
    assert levels.Keys == levels'.Keys;
  }

  /** Two memories that hold books with the same orders in the same places are equal: every link of
      every queue, every header and count, the whole free list and every flag. */
  lemma BookDeterminesMemory(image: BookImage, image': BookImage, b: Book, b': Book)
    requires Rep(image, b) && Rep(image', b') && SamePlaces(b, b')
    requires |image.cells| == |image'.cells| && SlotsOk(b, |image.cells|)
    ensures image == image'
  {
    LevelsAgree(image.cells, image'.cells, image.bids, image'.bids, b.bids);
    LevelsAgree(image.cells, image'.cells, image.asks, image'.asks, b.asks);
    forall x: nat | x < |image.cells| ensures image.cells[x] == image'.cells[x] {
      SlotIsInOnePlace(b, |image.cells|, x);
      if x in b.free {
        FreeCellsAgree(image.cells, image'.cells, image.next, image'.next, b.free, x);
      } else if x in Slots(b.bids) {
        RestingCellsAgree(image.cells, image'.cells, image.bids, image'.bids, b.bids, x);
      } else if x in Slots(b.asks) {
        RestingCellsAgree(image.cells, image'.cells, image.asks, image'.asks, b.asks, x);
      }
    }
    assert image.cells == image'.cells;
  }

  /** Resting an order and cancelling it at once restores the memory exactly. */
  lemma RoundTripInMemory(image: BookImage, b: Book, order: Order, image': BookImage)
    requires Rep(image, b) && Invariant(b, |image.cells|) && |image'.cells| == |image.cells|
    requires b.free != [] && order.size > 0 && MatchedOnArrival(b, order) == 0
    requires var (b1, slot) := AddOrder(b, order);
      Cancellable(b1, slot.value) ==> Rep(image', CancelOrder(b1, slot.value))
    ensures image' == image
  {
    RestThenCancel(b, |image.cells|, order);
    var (b1, slot) := AddOrder(b, order);
    BookDeterminesMemory(image, image', b, CancelOrder(b1, slot.value));
  }

  /** Splitting a direct match in two leaves the very memory the single match leaves. */
  lemma SplitInMemory(b: Book, capacity: nat, isBuy: bool, price: uint64, a: uint32, c: uint32, orderType: OrderType,
                      image: BookImage, image': BookImage)
    requires Invariant(b, capacity) && a + c < TWO_TO_THE_32
    requires |image.cells| == |image'.cells| == capacity
    requires var b1 := MatchOrder(b, isBuy, price, a, orderType, 0, None).0;
      Rep(image, MatchOrder(b1, isBuy, price, c, orderType, 0, None).0)
    requires Rep(image', MatchOrder(b, isBuy, price, a + c, orderType, 0, None).0)
    ensures image == image'
  {
    hide Invariant, Rep, MatchOrder;
    MatchesCompose(b, capacity, isBuy, price, a, c, orderType);
    var b1 := MatchOrder(b, isBuy, price, a, orderType, 0, None).0;
    var b2 := MatchOrder(b1, isBuy, price, c, orderType, 0, None).0;
    MatchIsAStep(b, capacity, isBuy, price, a, orderType);
    MatchIsAStep(b1, capacity, isBuy, price, c, orderType);
    InvariantGivesSlots(b2, capacity);
    BookDeterminesMemory(image, image', b2, MatchOrder(b, isBuy, price, a + c, orderType, 0, None).0);
  }

  lemma MatchIsAStep(b: Book, capacity: nat, isBuy: bool, price: uint64, size: nat, orderType: OrderType)
    requires Invariant(b, capacity)
    ensures Invariant(MatchOrder(b, isBuy, price, size, orderType, 0, None).0, capacity)
  {
    MatchKeepsInvariant(b, capacity, isBuy, price, size, orderType, 0);
  }

  lemma InvariantGivesSlots(b: Book, capacity: nat)
    requires Invariant(b, capacity)
    ensures SlotsOk(b, capacity)
  {
  }

  // ---------- The memory determines the book ----------

  /** Two sorted lists with the same levels hold the same slots in the same order. */
  lemma {:induction false} LevelsDetermineList(isBuy: bool, s: seq<Entry>, t: seq<Entry>)
    requires Sorted(isBuy, s) && Sorted(isBuy, t)
    requires forall p: uint64 :: LevelOf(s, p) == LevelOf(t, p)
    ensures Slots(s) == Slots(t)
    decreases |s|
  {
    if s == [] {
      if t != [] {
        FrontsAgree(isBuy, t, s);
      }
    } else {
      FrontsAgree(isBuy, s, t);
      forall p: uint64 ensures LevelOf(s[1..], p) == LevelOf(t[1..], p) {
        assert LevelOf(s, p) == LevelOf(t, p);
        assert p == s[0].order.price ==> LevelOf(s, p)[1..] == LevelOf(s[1..], p) && LevelOf(t, p)[1..] == LevelOf(t[1..], p);
      }
      LevelsDetermineList(isBuy, s[1..], t[1..]);
    }
  }

  lemma FrontsAgree(isBuy: bool, s: seq<Entry>, t: seq<Entry>)
    requires Sorted(isBuy, s) && Sorted(isBuy, t) && s != []
    requires forall p: uint64 :: LevelOf(s, p) == LevelOf(t, p)
    ensures t != [] && t[0].order.price == s[0].order.price && t[0].slot == s[0].slot
  {
    var p := s[0].order.price;
    assert LevelOf(t, p) == LevelOf(s, p) != [];
    var i := LevelMember(t, p, LevelOf(t, p)[0]);
    assert i > 0 ==> Prior(isBuy, t[0], t[i]);
    var q := t[0].order.price;
    assert LevelOf(s, q) == LevelOf(t, q) != [];
    var j := LevelMember(s, q, LevelOf(s, q)[0]);
    assert j > 0 ==> Prior(isBuy, s[0], s[j]);
  }

  /** One memory holds one book: the free list, on each side the same orders in the same slots and the
      same sequence, and the same orders with their owners.  Only the history is not in memory. */
  lemma MemoryDeterminesBook(image: BookImage, b: Book, b': Book, capacity: nat)
    requires Rep(image, b) && Rep(image, b') && Invariant(b, capacity) && Invariant(b', capacity)
    ensures b.free == b'.free
    ensures Slots(b.bids) == Slots(b'.bids) && Slots(b.asks) == Slots(b'.asks)
    ensures forall i :: 0 <= i < |b.bids| ==> b.bids[i].order == b'.bids[i].order
    ensures forall i :: 0 <= i < |b.asks| ==> b.asks[i].order == b'.asks[i].order
    ensures b.idle.Keys == b'.idle.Keys && forall x :: x in b.idle ==> b.idle[x].order == b'.idle[x].order
  {
    ChainIsFunctional(image.cells, image.next, b.free, b'.free);
    SameLevels(image.cells, image.bids, b.bids, b'.bids);
    SameLevels(image.cells, image.asks, b.asks, b'.asks);
    LevelsDetermineList(true, b.bids, b'.bids);
    LevelsDetermineList(false, b.asks, b'.asks);
    SlotsDetermineOrders(image.cells, image.bids, b.bids, b'.bids);
    SlotsDetermineOrders(image.cells, image.asks, b.asks, b'.asks);
    forall x: nat ensures x in b.idle <==> x in b'.idle {
      SlotIsInOnePlace(b, capacity, x);
      SlotIsInOnePlace(b', capacity, x);
    }
  }

  lemma SlotsDetermineOrders(cells: Cells, levels: Levels, s: seq<Entry>, t: seq<Entry>)
    requires SideRep(cells, levels, s, {}) && SideRep(cells, levels, t, {}) && Slots(s) == Slots(t)
    ensures forall i :: 0 <= i < |s| ==> s[i].order == t[i].order
  {
    forall i: nat | i < |s| ensures s[i].order == t[i].order {
      SlotsAt(s, i);
      SlotsAt(t, i);
      assert InCell(cells, s[i]) && InCell(cells, t[i]);
    }
  }

  lemma SameLevels(cells: Cells, levels: Levels, s: seq<Entry>, t: seq<Entry>)
    requires SideRep(cells, levels, s, {}) && SideRep(cells, levels, t, {})
    ensures forall p: uint64 :: LevelOf(s, p) == LevelOf(t, p)
  {
    forall p: uint64 ensures LevelOf(s, p) == LevelOf(t, p) {
      if p in levels {
        assert LevelRep(cells, levels, s, p) && LevelRep(cells, levels, t, p);
        ListIsUnique(cells, levels[p], LevelOf(s, p), LevelOf(t, p));
      } else {
        NoLevelNoOrders(cells, levels, s, p);
        NoLevelNoOrders(cells, levels, t, p);
      }
    }
  }

  lemma NoLevelNoOrders(cells: Cells, levels: Levels, s: seq<Entry>, p: uint64)
    requires SideRep(cells, levels, s, {}) && p !in levels
    ensures LevelOf(s, p) == []
  {
    forall i: nat | i < |s| ensures s[i].order.price != p {
      assert InCell(cells, s[i]);
    }
    LevelOfNothing(s, p);
  }

  /** Following the links from a header gives one list. */
  lemma ListIsUnique(cells: Cells, h: Header, items: seq<nat>, items': seq<nat>)
    requires ListRep(cells, h, items) && ListRep(cells, h, items')
    ensures items == items'
  {
    forall i: nat | i < |items| ensures items[i] == items'[i] {
      ListItemIsUnique(cells, h, items, items', i);
    }
  }

  lemma {:induction false} ListItemIsUnique(cells: Cells, h: Header, items: seq<nat>, items': seq<nat>, i: nat)
    requires ListRep(cells, h, items) && ListRep(cells, h, items') && i < |items|
    ensures |items| == |items'| && items[i] == items'[i]
  {
    assert h.size == |items| == |items'|;
    if i > 0 {
      ListItemIsUnique(cells, h, items, items', i - 1);
      assert Linked(cells, items, i - 1) && Linked(cells, items', i - 1);
    }
  }

  // ---------- Cancelling what does not rest ----------

  /** The header a queue is left with when an order outside it, with no links, is removed from it. */
  lemma RemovingAStranger(cells: Cells, h: Header, x: nat)
    requires IsLive(cells, x) && At(cells, x).listNode == DETACHED && h.size > 0
    ensures NeighboursLive(cells, x) && RemoveStep(cells, h, x) == (cells, Header(None, None, h.size - 1))
  {
    assert WithNode(cells, x, DETACHED) == cells;
  }

  /** In the memory of a book a level with orders has a head. */
  lemma CountedMeansReachable(image: BookImage, b: Book, isBuy: bool, p: uint64)
    requires Rep(image, b) && p in LevelsOf(image, isBuy)
    ensures LevelsOf(image, isBuy)[p].size > 0 ==> LevelsOf(image, isBuy)[p].head.Some?
  {
    assert LevelRep(image.cells, LevelsOf(image, isBuy), SideOf(b, isBuy), p);
  }

  /** In the memory of a valid book every live order with an open size has a level at its price. */
  lemma OpenOrderHasLevel(image: BookImage, b: Book, capacity: nat, y: nat)
    requires Rep(image, b) && Invariant(b, capacity) && capacity == |image.cells| && IsLive(image.cells, y)
    ensures var o := At(image.cells, y);
      o.size > 0 ==> o.price in LevelsOf(image, o.isBuySide)
  {
    LiveOrderIsSomewhere(image, b, capacity, y);
    if Resting(b, y) {
      var isBuy := At(image.cells, y).isBuySide;
      var i := SlotIndex(SideOf(b, isBuy), y);
      assert InCell(image.cells, SideOf(b, isBuy)[i]);
    }
  }

  /** The writes of `cancelOrder` for an order without links that has a level at its price. */
  lemma CancellingAStranger(image: BookImage, slot: nat)
    requires CancelMayRun(image, slot) && At(image.cells, slot).listNode == DETACHED
    requires At(image.cells, slot).price in LevelsOf(image, At(image.cells, slot).isBuySide)
    ensures var isBuy, p := At(image.cells, slot).isBuySide, At(image.cells, slot).price;
      var after, levels := CancelImage(image, slot), LevelsOf(image, isBuy);
      && LevelsOf(after, isBuy)
         == (if levels[p].size == 1 then levels - {p} else levels[p := Header(None, None, levels[p].size - 1)])
      && LevelsOf(after, !isBuy) == LevelsOf(image, !isBuy)
      && after.cells == image.cells[slot := Element(true, Link(image.next))] && after.next == slot
  {
    var isBuy, p := At(image.cells, slot).isBuySide, At(image.cells, slot).price;
    RemovingAStranger(image.cells, LevelsOf(image, isBuy)[p], slot);
    hide RemoveStep;
  }

  /** What cancelling a live order that does not rest does when others rest at its price on its side.  Its
      slot goes on top of the free list and no link of another order changes; but its level is erased if
      it held one order, and otherwise is left without head or tail and with a count one too small. */
  lemma UnsafeCancelStrandsLevel(image: BookImage, b: Book, capacity: nat, slot: nat)
    requires Rep(image, b) && Invariant(b, capacity) && capacity == |image.cells|
    requires IsLive(image.cells, slot) && !Cancellable(b, slot) && CancelMayRun(image, slot)
    ensures var isBuy, p := At(image.cells, slot).isBuySide, At(image.cells, slot).price;
      var after, levels := CancelImage(image, slot), LevelsOf(image, isBuy);
      && p in levels && levels[p].size > 0
      && LevelsOf(after, isBuy)
         == (if levels[p].size == 1 then levels - {p} else levels[p := Header(None, None, levels[p].size - 1)])
      && LevelsOf(after, !isBuy) == LevelsOf(image, !isBuy)
      && after.cells == image.cells[slot := Element(true, Link(image.next))] && after.next == slot
  {
    hide CancelImage, CancelMayRun;
    LiveOrderIsSomewhere(image, b, capacity, slot);
    var isBuy, p := At(image.cells, slot).isBuySide, At(image.cells, slot).price;
    assert At(image.cells, slot) == b.idle[slot].order && b.idle[slot].order.listNode == DETACHED;
    var y := StrandedOrder(image, b, isBuy, p);
    CancellingAStranger(image, slot);
  }

  /** After that the memory holds no book: either a level counts orders it cannot reach, or the one order
      of an erased level still lives in its slot. */
  lemma UnsafeCancelBreaks(image: BookImage, b: Book, capacity: nat, slot: nat, b': Book)
    requires Rep(image, b) && Invariant(b, capacity) && capacity == |image.cells|
    requires IsLive(image.cells, slot) && !Cancellable(b, slot)
    requires CancelMayRun(image, slot) && Invariant(b', capacity)
    ensures !Rep(CancelImage(image, slot), b')
  {
    hide CancelImage;
    UnsafeCancelStrandsLevel(image, b, capacity, slot);
    LiveOrderIsSomewhere(image, b, capacity, slot);
    var isBuy, p := At(image.cells, slot).isBuySide, At(image.cells, slot).price;
    var y := StrandedOrder(image, b, isBuy, p);
    var after := CancelImage(image, slot);
    if LevelsOf(image, isBuy)[p].size > 1 {
      if Rep(after, b') {
        CountedMeansReachable(after, b', isBuy, p);
      }
    } else {
      assert p !in LevelsOf(after, isBuy);
      assert IsLive(after.cells, y) && At(after.cells, y) == At(image.cells, y);
      if Rep(after, b') {
        OpenOrderHasLevel(after, b', capacity, y);
      }
    }
  }

  /** An order at the head of the level at `p`. */
  lemma StrandedOrder(image: BookImage, b: Book, isBuy: bool, p: uint64) returns (y: nat)
    requires Rep(image, b) && Invariant(b, |image.cells|) && LevelOf(SideOf(b, isBuy), p) != []
    ensures p in LevelsOf(image, isBuy) && LevelsOf(image, isBuy)[p].size > 0
    ensures IsLive(image.cells, y) && y !in b.idle
    ensures var o := At(image.cells, y); o.price == p && o.isBuySide == isBuy && o.size > 0
  {
    var s := SideOf(b, isBuy);
    y := LevelOf(s, p)[0];
    var i := LevelMember(s, p, y);
    SidesOfBook(b, |image.cells|, isBuy);
    assert InCell(image.cells, s[i]) && s[i].order.isBuySide == isBuy;
    assert LevelRep(image.cells, LevelsOf(image, isBuy), s, p);
    SlotsAt(s, i);
    SlotIsInOnePlace(b, |image.cells|, y);
  }

  /** Cancelling a live order leaves the memory of a valid book if and only if the order rests or no
      order rests at its price on its side. */
  lemma CancelIsSafeIff(image: BookImage, b: Book, capacity: nat, slot: nat)
    requires Rep(image, b) && Invariant(b, capacity) && capacity == |image.cells| && IsLive(image.cells, slot)
    ensures CancelMayRun(image, slot)
    ensures (exists b' :: Rep(CancelImage(image, slot), b') && Invariant(b', capacity)) <==> Cancellable(b, slot)
  {
    hide Rep, Invariant, CancelImage, Cancellable, CancelMayRun;
    CancelMeaning(image, b, slot);
    if Cancellable(b, slot) {
      var b' := CancelOrder(b, slot);
      assert Rep(CancelImage(image, slot), b') && Invariant(b', capacity);
    } else {
      forall b' | Invariant(b', capacity) ensures !Rep(CancelImage(image, slot), b') {
        UnsafeCancelBreaks(image, b, capacity, slot, b');
      }
    }
  }

  function Sample(id: uint64, isBuy: bool): Order {
    Order(id, 0, 1, 100, isBuy, Limit, DETACHED)
  }

  /** Adding three orders one after the other, as a run. */
  lemma ThreeAdds(b: Book, o1: Order, o2: Order, o3: Order)
    requires o1.listNode == o2.listNode == o3.listNode == DETACHED
    ensures var ops := [Add(o1), Add(o2), Add(o3)];
      var (b1, r1) := AddOrder(b, o1);
      var (b2, r2) := AddOrder(b1, o2);
      var (b3, r3) := AddOrder(b2, o3);
      && Runs(b, ops) && After(b, ops) == b3
      && Replies(b, ops) == [Returned(r1), Returned(r2), Returned(r3)]
  {
    hide AddOrder, Runs, After, Replies;
    RunExtends(b, [], Add(o1));
    RunExtends(b, [Add(o1)], Add(o2));
    RunExtends(b, [Add(o1), Add(o2)], Add(o3));
    assert [] + [Add(o1)] == [Add(o1)] && [Add(o1)] + [Add(o2)] == [Add(o1), Add(o2)];
    assert [Add(o1), Add(o2)] + [Add(o3)] == [Add(o1), Add(o2), Add(o3)];
  }

  /** A run after which an order returned by `addOrder` may not be cancelled: an ask, a bid that fills
      it and stays with its owner, and a second bid that rests at the same price.  Cancelling the first
      bid would take the second one's level away. */
  lemma FilledOrderMayNotBeCancellable()
    ensures var ops := [Add(Sample(1, false)), Add(Sample(2, true)), Add(Sample(3, true))];
      && Runs(Opened(3), ops)
      && Replies(Opened(3), ops) == [Returned(Some(0)), Returned(Some(1)), Returned(Some(0))]
      && var b := After(Opened(3), ops);
         && 1 in b.idle && b.idle[1].order == Sample(2, true).(size := 0)
         && LevelOf(b.bids, 100) == [0]
         && !Cancellable(b, 1)
  {
    var o1, o2, o3 := Sample(1, false), Sample(2, true), Sample(3, true);
    var b0 := Opened(3);
    var b1, b2, b3 := AddOrder(b0, o1).0, AddOrder(AddOrder(b0, o1).0, o2).0, AddOrder(AddOrder(AddOrder(b0, o1).0, o2).0, o3).0;
    FirstAsk(b0, o1);
    FillingBid(b1, o2);
    RestingBid(b2, o3);
    ThreeAdds(b0, o1, o2, o3);
  }

  lemma FirstAsk(b: Book, o: Order)
    requires b == Opened(3) && o == Sample(1, false)
    ensures AddOrder(b, o).1 == Some(0)
    ensures var b' := AddOrder(b, o).0;
      b'.bids == [] && b'.asks == [Entry(0, 0, o)] && b'.free == [1, 2] && b'.idle == map[] && b'.accepted == [o]
  {
    AddOrderPlaces(b, o);
    assert b.free == [0, 1, 2];
  }

  lemma FillingBid(b: Book, o: Order)
    requires b.bids == [] && b.asks == [Entry(0, 0, Sample(1, false))] && b.free == [1, 2] && b.idle == map[]
    requires |b.accepted| == 1 && o == Sample(2, true)
    ensures AddOrder(b, o).1 == Some(1)
    ensures var b' := AddOrder(b, o).0;
      && b'.bids == [] && b'.asks == [] && b'.free == [0, 2]
      && b'.idle == map[1 := Entry(1, 1, o.(size := 0))]
  {
    AddOrderPlaces(b, o);
    var s := b.asks;
    assert s[1..] == [] && Volume(s, AtMost(100)) == 1;
    assert Drain(s, 1) == [] && Emptied(s, 1) == [0];
    assert Release([2], [0]) == Release([0] + [2], []) == [0, 2];
  }

  lemma RestingBid(b: Book, o: Order)
    requires b.bids == [] && b.asks == [] && b.free == [0, 2] && o == Sample(3, true)
    requires b.idle == map[1 := Entry(1, 1, Sample(2, true).(size := 0))]
    ensures AddOrder(b, o).1 == Some(0)
    ensures var b' := AddOrder(b, o).0;
      b'.bids == [Entry(0, |b.accepted|, o)] && b'.asks == [] && b'.idle == b.idle
  {
    AddOrderPlaces(b, o);
  }
}

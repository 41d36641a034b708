/** The limit order book itself: a pool of orders and two ordered maps of price levels. */
module OrderBooks {
  import opened Basics
  import opened MemPools
  import opened Orders
  import opened IntrusiveQueues
  import opened PriceTime
  import opened Books
  import opened BookInvariants
  import opened BookSteps
  import opened BookRep
  import opened BookRepSteps
  import opened MatchSteps
  import opened CallMeaning

  type PriceLevels = map<uint64, IntrusiveQueue>

  ghost function Headers(m: PriceLevels): Levels
    reads m.Values
  {
    map p | p in m :: m[p].GetHeader()
  }

  /** A non-empty set of prices has a best one: the least, to which `begin` points, or the greatest,
      to which `rbegin` points. */
  lemma {:induction false} BestPrice(isBuy: bool, keys: set<uint64>) returns (p: uint64)
    requires keys != {}
    ensures p in keys && forall q :: q in keys ==> !BetterPrice(isBuy, q, p)
  {
    p :| p in keys;
    if keys != {p} {
      var rest := keys - {p};
      var r := BestPrice(isBuy, rest);
      assert forall q :: q in keys ==> q == p || q in rest;
      if BetterPrice(isBuy, r, p) {
        p := r;
      }
    }
  }

  ghost predicate DistinctQueues(m: PriceLevels) {
    forall p, q :: p in m && q in m && p != q ==> m[p] != m[q]
  }

  /** Writing to one level changes the headers at one price. */
  lemma OneLevelChanged(m: PriceLevels, before: Levels, price: uint64)
    requires price in m && before.Keys == m.Keys
    requires forall q :: q in m && q != price ==> m[q].GetHeader() == before[q]
    ensures Headers(m) == before[price := m[price].GetHeader()]
  {
  }

  lemma OneLevelErased(m: PriceLevels, price: uint64)
    ensures Headers(m - {price}) == Headers(m) - {price}
    ensures (m - {price}).Values <= m.Values
  {
  }

  lemma OneLevelAdded(m: PriceLevels, price: uint64, level: IntrusiveQueue)
    ensures Headers(m[price := level]) == Headers(m)[price := level.GetHeader()]
  {
  }

  /** Appending to the level at a price, seen from the whole map of levels. */
  method AppendAt(m: PriceLevels, price: uint64, store: array<Element<Order>>, slot: nat, ghost items: seq<nat>)
    requires DistinctQueues(m) && price in m && IsLive(store[..], slot) && slot !in items
    requires ListRep(store[..], m[price].GetHeader(), items)
    modifies m[price], store
    ensures old(m[price].head).Some? ==> old(m[price].tail).Some? && old(IsLive(store[..], m[price].tail.value))
    ensures var (cells, h) := AppendStep(old(store[..]), old(m[price].GetHeader()), slot);
      store[..] == cells && Headers(m) == old(Headers(m))[price := h]
  {
    ghost var levels := Headers(m);
    m[price].Append(store, slot, items);
    OneLevelChanged(m, levels, price);
  }

  /** Unlinking from the level at a price, seen from the whole map of levels. */
  method RemoveAt(m: PriceLevels, price: uint64, store: array<Element<Order>>, slot: nat)
    requires DistinctQueues(m) && price in m && m[price].size > 0
    requires IsLive(store[..], slot) && NeighboursLive(store[..], slot)
    modifies m[price], store
    ensures var (cells, h) := RemoveStep(old(store[..]), old(m[price].GetHeader()), slot);
      store[..] == cells && Headers(m) == old(Headers(m))[price := h]
  {
    ghost var levels := Headers(m);
    m[price].Remove(store, slot);
    OneLevelChanged(m, levels, price);
  }

  class OrderBook {
    const pool: MemPool<Order>
    var bidLevels: PriceLevels
    var askLevels: PriceLevels
    ghost var book: Book

    ghost function LevelMap(isBuy: bool): PriceLevels
      reads this`bidLevels, this`askLevels
    {
      if isBuy then bidLevels else askLevels
    }

    ghost function Queues(): set<IntrusiveQueue>
      reads this`bidLevels, this`askLevels
    {
      bidLevels.Values + askLevels.Values
    }

    /** No two levels share a queue object. */
    ghost predicate Separate()
      reads this`bidLevels, this`askLevels
    {
      && DistinctQueues(bidLevels) && DistinctQueues(askLevels)
      && (forall p, q :: p in bidLevels && q in askLevels ==> bidLevels[p] != askLevels[q])
    }

    ghost function Image(): BookImage
      reads this`bidLevels, this`askLevels, pool, pool.store, Queues()
    {
      BookImage(pool.store[..], pool.nextFree, Headers(bidLevels), Headers(askLevels))
    }

    /** What holds between the steps of a match, while one level may be empty. */
    ghost predicate Consistent(isBuy: bool, gap: set<uint64>)
      reads this, pool, pool.store, Queues()
    {
      Separate() && pool.free == book.free && Sound(Image(), book, isBuy, gap)
    }

    ghost predicate Valid()
      reads this, pool, pool.store, Queues()
    {
      && Separate()
      && pool.free == book.free
      && Rep(Image(), book)
      && Invariant(book, pool.store.Length)
    }

    constructor (poolSize: nat)
      requires poolSize > 0
      ensures Valid() && fresh(pool) && fresh(pool.store) && pool.store.Length == poolSize
      ensures book == Opened(poolSize)
    {
      pool := new MemPool(poolSize);
      bidLevels, askLevels := map[], map[];
      book := Opened(poolSize);
      new;
      OpenedIsValid(poolSize);
    }

    /** A new order takes a slot, is matched against the other side and rests with what is left. */
    method AddOrder(orderId: uint64, clientId: uint64, size: uint32, price: uint64, isBuySide: bool,
                    orderType: OrderType)
      returns (slot: Option<nat>)
      requires Valid()
      modifies this, pool, pool.store, Queues()
      ensures Valid() && fresh(Queues() - old(Queues()))
      ensures var order := Order(orderId, clientId, size, price, isBuySide, orderType, DETACHED);
        && (book, slot) == Books.AddOrder(old(book), order)
        && (book, Returned(slot)) == Step(old(book), Add(order))
      ensures slot.Some? ==>
        && old(book).trades <= book.trades
        && TotalSize(SideOf(book, !isBuySide)) <= TotalSize(SideOf(old(book), !isBuySide))
        && Sweeps(isBuySide, orderType, price, size, Some(|old(book).accepted|),
                  SideOf(old(book), !isBuySide), SideOf(book, !isBuySide), book.trades[|old(book).trades|..],
                  TotalSize(SideOf(old(book), !isBuySide)) - TotalSize(SideOf(book, !isBuySide)))
      ensures slot == None <==> old(book).free == []
      ensures slot == None ==> Image() == old(Image())
    {
      hide Sound, Rep, Invariant, MatchOrder, Settle, Admit, Books.AddOrder, Sweeps, TotalSize, FreesTheFront;
      var order := Order(orderId, clientId, size, price, isBuySide, orderType, DETACHED);
      ghost var b := book;
      SoundFromValid(Image(), book, isBuySide);
      AddOrderIsAMatch(b, order);
      slot := AdmitOrder(order, isBuySide);
      if slot == None {
        return;
      }
      AddKeepsInvariant(b, pool.store.Length, order);
      AddSweeps(b, pool.store.Length, order);
      var matched;
      if isBuySide {
        matched := MatchBidOrder(price, size, orderType, 0, Some(|b.accepted|));
      } else {
        matched := MatchAskOrder(price, size, orderType, 0, Some(|b.accepted|));
      }
      SoundBothWays(Image(), book, !isBuySide);
      SettleOrder(slot.value, size, price, isBuySide, matched);
    }

    /** The allocation at the start of `AddOrder`. */
    method AdmitOrder(order: Order, ghost isBuy: bool) returns (slot: Option<nat>)
      requires Consistent(isBuy, {}) && order.listNode == DETACHED
      modifies this`book, pool, pool.store
      ensures slot == if old(book).free == [] then None else Some(old(book).free[0])
      ensures Consistent(true, {}) && Consistent(false, {})
      ensures if slot == None then book == old(book) && Image() == old(Image()) else book == Admit(old(book), order)
    {
      hide Sound, SlotsOk, PoolRep, Headers;
      SoundBothWays(Image(), book, isBuy);
      ghost var image := Image();
      SoundGivesPool(image, book, isBuy, {});
      if book.free != [] {
        AdmitSound(image, book, isBuy, order);
        book := Admit(book, order);
      }
      slot := pool.Allocate(order);
      assert Image() == BookImage(pool.store[..], pool.nextFree, image.bids, image.asks);
    }

    /** The end of `AddOrder`: the size is written, and what is left rests. */
    method SettleOrder(slot: nat, size: uint32, price: uint64, isBuy: bool, matched: uint32)
      requires Consistent(isBuy, {}) && slot in book.idle && matched <= size
      requires var e := book.idle[slot];
        && e.slot == slot && e.order.size == size && e.order.price == price && e.order.isBuySide == isBuy
        && e.order.listNode == DETACHED
      modifies this, pool.store, LevelMap(isBuy).Values
      ensures Separate() && pool.free == book.free && Rep(Image(), book)
      ensures book == Settle(old(book), slot, matched)
      ensures fresh(Queues() - old(Queues()))
    {
      hide Sound, Headers, Settle, Rep;
      ghost var image := Image();
      ResizeSound(image, book, isBuy, slot, matched);
      SettleInTwo(book, slot, matched);
      book := book.(idle := book.idle[slot := Shrunk(book.idle[slot], matched)]);
      var _ := DecreaseSize(pool.store, slot, matched);
      assert Image() == image.(cells := pool.store[..]);
      if matched < size {
        RestOrder(slot, price, isBuy);
      } else {
        SoundBothWays(Image(), book, isBuy);
      }
    }

    method RestOrder(slot: nat, price: uint64, isBuy: bool)
      requires Consistent(isBuy, {}) && slot in book.idle
      requires var e := book.idle[slot];
        && e.slot == slot && e.order.size > 0 && e.order.price == price && e.order.isBuySide == isBuy
        && e.order.listNode == DETACHED
      modifies this, pool.store, LevelMap(isBuy).Values
      ensures Separate() && pool.free == book.free && Rep(Image(), book)
      ensures book == Settle(old(book), slot, 0)
      ensures fresh(Queues() - old(Queues()))
    {
      hide Sound, Rep, Rested, Headers;
      ghost var image, items := Image(), LevelOf(SideOf(book, isBuy), price);
      RestSound(image, book, isBuy, slot);
      book := Settle(book, slot, 0);
      if isBuy {
        JoinBid(slot, price, items);
      } else {
        JoinAsk(slot, price, items);
      }
    }

    method JoinBid(slot: nat, price: uint64, ghost items: seq<nat>)
      requires Separate() && IsLive(pool.store[..], slot) && MayJoin(Image(), true, price)
      requires ListRep(pool.store[..], HeaderAt(Headers(bidLevels), price), items) && slot !in items
      modifies this`bidLevels, pool.store, bidLevels.Values
      ensures Separate() && fresh(bidLevels.Values - old(bidLevels.Values))
      ensures Image() == Rested(old(Image()), true, price, slot)
    {
      hide AppendStep, ListRep, Headers, MayJoin, At, Put;
      var level := BidLevelFor(price);
      ghost var others := Headers(askLevels);
      AppendAt(bidLevels, price, pool.store, slot, items);
      assert Headers(askLevels) == others;
    }

    method JoinAsk(slot: nat, price: uint64, ghost items: seq<nat>)
      requires Separate() && IsLive(pool.store[..], slot) && MayJoin(Image(), false, price)
      requires ListRep(pool.store[..], HeaderAt(Headers(askLevels), price), items) && slot !in items
      modifies this`askLevels, pool.store, askLevels.Values
      ensures Separate() && fresh(askLevels.Values - old(askLevels.Values))
      ensures Image() == Rested(old(Image()), false, price, slot)
    {
      hide AppendStep, ListRep, Headers, MayJoin, At, Put;
      var level := AskLevelFor(price);
      ghost var others := Headers(bidLevels);
      AppendAt(askLevels, price, pool.store, slot, items);
      assert Headers(bidLevels) == others;
    }

    /** Indexing into the map of bid levels: the level at a price, made if there is none. */
    method BidLevelFor(price: uint64) returns (level: IntrusiveQueue)
      requires Separate()
      modifies this`bidLevels
      ensures Separate() && bidLevels == old(bidLevels)[price := level]
      ensures if price in old(bidLevels) then level == old(bidLevels)[price] else fresh(level)
      ensures level.GetHeader() == HeaderAt(old(Headers(bidLevels)), price)
      ensures Headers(bidLevels) == old(Headers(bidLevels))[price := level.GetHeader()]
      ensures Headers(askLevels) == old(Headers(askLevels))
      ensures level in bidLevels.Values && level !in askLevels.Values
      ensures fresh(bidLevels.Values - old(bidLevels.Values))
    {
      if price in bidLevels {
        level := bidLevels[price];
        assert bidLevels == bidLevels[price := level];
      } else {
        level := new IntrusiveQueue();
        OneLevelAdded(bidLevels, price, level);
        bidLevels := bidLevels[price := level];
      }
      assert bidLevels[price] == level;
    }

    method AskLevelFor(price: uint64) returns (level: IntrusiveQueue)
      requires Separate()
      modifies this`askLevels
      ensures Separate() && askLevels == old(askLevels)[price := level]
      ensures if price in old(askLevels) then level == old(askLevels)[price] else fresh(level)
      ensures level.GetHeader() == HeaderAt(old(Headers(askLevels)), price)
      ensures Headers(askLevels) == old(Headers(askLevels))[price := level.GetHeader()]
      ensures Headers(bidLevels) == old(Headers(bidLevels))
      ensures level in askLevels.Values && level !in bidLevels.Values
      ensures fresh(askLevels.Values - old(askLevels.Values))
    {
      if price in askLevels {
        level := askLevels[price];
        assert askLevels == askLevels[price := level];
      } else {
        level := new IntrusiveQueue();
        OneLevelAdded(askLevels, price, level);
        askLevels := askLevels[price := level];
      }
      assert askLevels[price] == level;
    }

    /** Unlinks an order from its level, if there is one at its price, and frees its slot.  The exact
        writes are stated for every live order; that they amount to cancelling the order, for those that
        are `Cancellable`. */
    method CancelOrder(order: Option<nat>)
      requires Valid() && (order.Some? ==> IsLive(pool.store[..], order.value))
      modifies this, pool, pool.store, Queues()
      ensures Queues() <= old(Queues())
      ensures order == None ==> Valid() && book == old(book) && Image() == old(Image())
      ensures order.Some? ==>
        CancelMayRun(old(Image()), order.value) && Image() == CancelImage(old(Image()), order.value)
      ensures order.Some? && Cancellable(old(book), order.value) ==>
        Valid() && book == Books.CancelOrder(old(book), order.value)
      ensures (order.Some? ==> Cancellable(old(book), order.value)) ==>
        Enabled(old(book), Cancel(order)) && (book, Done) == Step(old(book), Cancel(order))
    {
      hide Rep, Invariant, Cancellable, Books.CancelOrder, CancelImage, CancelMayRun, Headers;
      if order == None {
        return;
      }
      ghost var image := Image();
      CancelMeaning(image, book, order.value);
      var o := pool.store[order.value].storage.value;
      if o.isBuySide {
        CloseBid(order.value, o.price);
      } else {
        CloseAsk(order.value, o.price);
      }
      if Cancellable(book, order.value) {
        book := Books.CancelOrder(book, order.value);
      }
    }

    method CloseBid(slot: nat, price: uint64)
      requires Separate() && CancelMayRun(Image(), slot)
      requires var order := At(pool.store[..], slot);
        && order.isBuySide && order.price == price
        && var cells := UnlinkStep(pool.store[..], Headers(bidLevels), price, slot).0;
           IsLive(cells, slot) && PoolRep(cells, pool.nextFree, pool.free)
      modifies this`bidLevels, pool, pool.store, bidLevels.Values
      ensures Separate() && bidLevels.Values <= old(bidLevels.Values)
      ensures Image() == CancelImage(old(Image()), slot)
      ensures pool.free == [slot] + old(pool.free)
    {
      hide UnlinkStep, PoolRep, NeighboursLive, DeallocateStep, RemoveStep;
      assert price in bidLevels ==> bidLevels[price].size > 0;
      hide Headers;
      UnlinkBid(slot, price);
      pool.Deallocate(slot);
    }

    method CloseAsk(slot: nat, price: uint64)
      requires Separate() && CancelMayRun(Image(), slot)
      requires var order := At(pool.store[..], slot);
        && !order.isBuySide && order.price == price
        && var cells := UnlinkStep(pool.store[..], Headers(askLevels), price, slot).0;
           IsLive(cells, slot) && PoolRep(cells, pool.nextFree, pool.free)
      modifies this`askLevels, pool, pool.store, askLevels.Values
      ensures Separate() && askLevels.Values <= old(askLevels.Values)
      ensures Image() == CancelImage(old(Image()), slot)
      ensures pool.free == [slot] + old(pool.free)
    {
      hide UnlinkStep, PoolRep, NeighboursLive, DeallocateStep, RemoveStep;
      assert price in askLevels ==> askLevels[price].size > 0;
      hide Headers;
      UnlinkAsk(slot, price);
      pool.Deallocate(slot);
    }

    method UnlinkBid(slot: nat, price: uint64)
      requires Separate() && (price in bidLevels ==> bidLevels[price].size > 0)
      requires IsLive(pool.store[..], slot) && NeighboursLive(pool.store[..], slot)
      modifies this`bidLevels, pool.store, bidLevels.Values
      ensures Separate() && bidLevels.Values <= old(bidLevels.Values)
      ensures (pool.store[..], Headers(bidLevels)) == UnlinkStep(old(pool.store[..]), old(Headers(bidLevels)), price, slot)
      ensures Headers(askLevels) == old(Headers(askLevels))
    {
      hide RemoveStep;
      if price in bidLevels {
        assert bidLevels[price] !in askLevels.Values;
        ghost var levels, others := Headers(bidLevels), Headers(askLevels);
        RemoveAt(bidLevels, price, pool.store, slot);
        assert Headers(bidLevels)[price] == bidLevels[price].GetHeader();
        hide Headers;
        assert Headers(askLevels) == others;
        assert levels[price := bidLevels[price].GetHeader()] - {price} == levels - {price};
        if bidLevels[price].Empty() {
          DropBidLevel(price);
        }
      }
    }

    method UnlinkAsk(slot: nat, price: uint64)
      requires Separate() && (price in askLevels ==> askLevels[price].size > 0)
      requires IsLive(pool.store[..], slot) && NeighboursLive(pool.store[..], slot)
      modifies this`askLevels, pool.store, askLevels.Values
      ensures Separate() && askLevels.Values <= old(askLevels.Values)
      ensures (pool.store[..], Headers(askLevels)) == UnlinkStep(old(pool.store[..]), old(Headers(askLevels)), price, slot)
      ensures Headers(bidLevels) == old(Headers(bidLevels))
    {
      hide RemoveStep;
      if price in askLevels {
        assert askLevels[price] !in bidLevels.Values;
        ghost var levels, others := Headers(askLevels), Headers(bidLevels);
        RemoveAt(askLevels, price, pool.store, slot);
        assert Headers(askLevels)[price] == askLevels[price].GetHeader();
        hide Headers;
        assert Headers(bidLevels) == others;
        assert levels[price := askLevels[price].GetHeader()] - {price} == levels - {price};
        if askLevels[price].Empty() {
          DropAskLevel(price);
        }
      }
    }

    method MatchBidOrder(price: uint64, size: uint32, orderType: OrderType, totalMatched: uint32,
                         ghost taker: Option<nat>)
      returns (total: uint32)
      requires Consistent(false, {})
      modifies this`book, this`askLevels, pool, pool.store, askLevels.Values
      ensures Consistent(false, {})
      ensures askLevels.Values <= old(askLevels.Values)
      ensures (book, total as nat) == MatchOrder(old(book), true, price, size, orderType, totalMatched, taker)
      ensures taker == None && old(Valid()) ==> Valid()
      ensures total >= totalMatched && old(book).trades <= book.trades
      ensures Sweeps(true, orderType, price, if totalMatched < size then size - totalMatched else 0, taker,
                     old(book).asks, book.asks, book.trades[|old(book).trades|..], total - totalMatched)
      ensures taker == None ==>
        (book, Matched(total)) == Step(old(book), Match(true, price, size, orderType, totalMatched))
    {
      hide Sound, Rep, Invariant, Consume, MatchOrder, MatchLevel, Reachable, Orderly, Sweeps, Step;
      if taker == None && Valid() {
        MatchKeepsInvariant(book, pool.store.Length, true, price, size, orderType, totalMatched);
      }
      SoundGivesPool(Image(), book, false, {});
      MatchMeaning(book, pool.store.Length, true, price, size, orderType, totalMatched, taker);
      total := totalMatched;
      ghost var goal := MatchOrder(book, true, price, size, orderType, total, taker);
      while total < size
        invariant Consistent(false, {})
        invariant askLevels.Values <= old(askLevels.Values)
        invariant MatchOrder(book, true, price, size, orderType, total, taker) == goal
        decreases askLevels.Keys
      {
        var best := BestAsk();
        if best.None? || (orderType == Limit && best.value > price) {
          MatchIsOver(book, pool.store.Length, true, price, size, orderType, total, taker);
          break;
        }
        var p := best.value;
        MatchLoopStep(book, pool.store.Length, true, price, size, orderType, total, p, taker);
        var erased;
        total, erased := MatchBestAsk(p, total, size, taker);
        if !erased {
          break;
        }
      }
      if total >= size {
        MatchIsOver(book, pool.store.Length, true, price, size, orderType, total, taker);
      }
      SoundBothWays(Image(), book, false);
    }

    /** The least key of the map of levels, if there is one: the best ask price. */
    method BestAsk() returns (p: Option<uint64>)
      requires Consistent(false, {})
      ensures Consistent(false, {})
      ensures p.None? ==> book.asks == []
      ensures p.Some? ==>
        && p.value in askLevels && Consistent(false, {p.value})
        && book.asks != [] && book.asks[0].order.price == p.value && Reachable(book.asks, Only(p.value))
      ensures Orderly(book, pool.store.Length)
    {
      hide Sound, Reachable, Orderly;
      if askLevels == map[] {
        LevelsCoverSide(Image(), book, false);
        return None;
      }
      ghost var _ := BestPrice(false, askLevels.Keys);
      var k :| k in askLevels && forall q :: q in askLevels ==> !BetterPrice(false, q, k);
      BestKey(Image(), book, false, k);
      p := Some(k);
    }

    /** One round of the loop above: the best level is matched, and erased if it has become empty. */
    method MatchBestAsk(p: uint64, totalMatched: uint32, size: uint32, ghost taker: Option<nat>)
      returns (total: uint32, erased: bool)
      requires Consistent(false, {p}) && p in askLevels && totalMatched < size
      requires Reachable(book.asks, Only(p))
      modifies this`book, this`askLevels, pool, pool.store, askLevels[p]
      ensures Consistent(false, {})
      ensures (book, total as nat) == MatchLevel(old(book), false, p, size, totalMatched, taker)
      ensures erased <==> Volume(book.asks, Only(p)) == 0
      ensures askLevels == if erased then old(askLevels) - {p} else old(askLevels)
    {
      hide Sound, Consume, MatchLevel, Reachable, Volume;
      total := MatchAtLevel(askLevels[p], totalMatched, size, false, p, taker);
      EraseLevel(Image(), book, false, p);
      erased := askLevels[p].Empty();
      if erased {
        EraseAsk(p);
      }
    }

    method EraseAsk(p: uint64)
      requires Consistent(false, {p}) && p in askLevels && askLevels[p].Empty()
      modifies this`askLevels
      ensures Consistent(false, {}) && askLevels == old(askLevels) - {p}
    {
      hide Sound;
      EraseLevel(Image(), book, false, p);
      assert LevelsOf(Image(), false)[p] == askLevels[p].GetHeader();
      hide Headers;
      DropAskLevel(p);
    }

    method DropAskLevel(price: uint64)
      requires Separate()
      modifies this`askLevels
      ensures askLevels == old(askLevels) - {price}
      ensures Separate() && askLevels.Values <= old(askLevels.Values)
      ensures Headers(askLevels) == old(Headers(askLevels)) - {price} && Headers(bidLevels) == old(Headers(bidLevels))
    {
      OneLevelErased(askLevels, price);
      askLevels := askLevels - {price};
    }

    method MatchAskOrder(price: uint64, size: uint32, orderType: OrderType, totalMatched: uint32,
                         ghost taker: Option<nat>)
      returns (total: uint32)
      requires Consistent(true, {})
      modifies this`book, this`bidLevels, pool, pool.store, bidLevels.Values
      ensures Consistent(true, {})
      ensures bidLevels.Values <= old(bidLevels.Values)
      ensures (book, total as nat) == MatchOrder(old(book), false, price, size, orderType, totalMatched, taker)
      ensures taker == None && old(Valid()) ==> Valid()
      ensures total >= totalMatched && old(book).trades <= book.trades
      ensures Sweeps(false, orderType, price, if totalMatched < size then size - totalMatched else 0, taker,
                     old(book).bids, book.bids, book.trades[|old(book).trades|..], total - totalMatched)
      ensures taker == None ==>
        (book, Matched(total)) == Step(old(book), Match(false, price, size, orderType, totalMatched))
    {
      hide Sound, Rep, Invariant, Consume, MatchOrder, MatchLevel, Reachable, Orderly, Sweeps, Step;
      if taker == None && Valid() {
        MatchKeepsInvariant(book, pool.store.Length, false, price, size, orderType, totalMatched);
      }
      SoundGivesPool(Image(), book, true, {});
      MatchMeaning(book, pool.store.Length, false, price, size, orderType, totalMatched, taker);
      total := totalMatched;
      ghost var goal := MatchOrder(book, false, price, size, orderType, total, taker);
      while total < size
        invariant Consistent(true, {})
        invariant bidLevels.Values <= old(bidLevels.Values)
        invariant MatchOrder(book, false, price, size, orderType, total, taker) == goal
        decreases bidLevels.Keys
      {
        var best := BestBid();
        if best.None? || (orderType == Limit && best.value < price) {
          MatchIsOver(book, pool.store.Length, false, price, size, orderType, total, taker);
          break;
        }
        var p := best.value;
        MatchLoopStep(book, pool.store.Length, false, price, size, orderType, total, p, taker);
        var erased;
        total, erased := MatchBestBid(p, total, size, taker);
        if !erased {
          break;
        }
      }
      if total >= size {
        MatchIsOver(book, pool.store.Length, false, price, size, orderType, total, taker);
      }
      SoundBothWays(Image(), book, true);
    }

    /** The greatest key of the map of levels, if there is one: the best bid price. */
    method BestBid() returns (p: Option<uint64>)
      requires Consistent(true, {})
      ensures Consistent(true, {})
      ensures p.None? ==> book.bids == []
      ensures p.Some? ==>
        && p.value in bidLevels && Consistent(true, {p.value})
        && book.bids != [] && book.bids[0].order.price == p.value && Reachable(book.bids, Only(p.value))
      ensures Orderly(book, pool.store.Length)
    {
      hide Sound, Reachable, Orderly;
      if bidLevels == map[] {
        LevelsCoverSide(Image(), book, true);
        return None;
      }
      ghost var _ := BestPrice(true, bidLevels.Keys);
      var k :| k in bidLevels && forall q :: q in bidLevels ==> !BetterPrice(true, q, k);
      BestKey(Image(), book, true, k);
      p := Some(k);
    }

    /** One round of the loop above: the best level is matched, and erased if it has become empty. */
    method MatchBestBid(p: uint64, totalMatched: uint32, size: uint32, ghost taker: Option<nat>)
      returns (total: uint32, erased: bool)
      requires Consistent(true, {p}) && p in bidLevels && totalMatched < size
      requires Reachable(book.bids, Only(p))
      modifies this`book, this`bidLevels, pool, pool.store, bidLevels[p]
      ensures Consistent(true, {})
      ensures (book, total as nat) == MatchLevel(old(book), true, p, size, totalMatched, taker)
      ensures erased <==> Volume(book.bids, Only(p)) == 0
      ensures bidLevels == if erased then old(bidLevels) - {p} else old(bidLevels)
    {
      hide Sound, Consume, MatchLevel, Reachable, Volume;
      total := MatchAtLevel(bidLevels[p], totalMatched, size, true, p, taker);
      EraseLevel(Image(), book, true, p);
      erased := bidLevels[p].Empty();
      if erased {
        EraseBid(p);
      }
    }

    method EraseBid(p: uint64)
      requires Consistent(true, {p}) && p in bidLevels && bidLevels[p].Empty()
      modifies this`bidLevels
      ensures Consistent(true, {}) && bidLevels == old(bidLevels) - {p}
    {
      hide Sound;
      EraseLevel(Image(), book, true, p);
      assert LevelsOf(Image(), true)[p] == bidLevels[p].GetHeader();
      hide Headers;
      DropBidLevel(p);
    }

    method DropBidLevel(price: uint64)
      requires Separate()
      modifies this`bidLevels
      ensures bidLevels == old(bidLevels) - {price}
      ensures Separate() && bidLevels.Values <= old(bidLevels.Values)
      ensures Headers(bidLevels) == old(Headers(bidLevels)) - {price} && Headers(askLevels) == old(Headers(askLevels))
    {
      OneLevelErased(bidLevels, price);
      bidLevels := bidLevels - {price};
    }

    method MatchAtLevel(level: IntrusiveQueue, totalMatched: uint32, size: uint32,
                        ghost isBuy: bool, ghost p: uint64, ghost taker: Option<nat>)
      returns (total: uint32)
      requires Consistent(isBuy, {p})
      requires p in LevelMap(isBuy) && LevelMap(isBuy)[p] == level
      requires Reachable(SideOf(book, isBuy), Only(p))
      requires totalMatched < size
      modifies this`book, pool, pool.store, level
      ensures Consistent(isBuy, {p})
      ensures (book, total as nat) == MatchLevel(old(book), isBuy, p, size, totalMatched, taker)
      ensures level.Empty() <==> Volume(SideOf(book, isBuy), Only(p)) == 0
    {
      hide Sound, Consume, MatchLevel, Reachable, Volume;
      total := totalMatched;
      ghost var goal := MatchLevel(book, isBuy, p, size, total, taker);
      while !level.Empty() && total < size
        invariant Consistent(isBuy, {p})
        invariant Reachable(SideOf(book, isBuy), Only(p))
        invariant totalMatched <= total <= size
        invariant MatchLevel(book, isBuy, p, size, total, taker) == goal
        decreases |SideOf(book, isBuy)|, size - total
      {
        LevelFront(Image(), book, isBuy, p);
        LevelLoopStep(book, isBuy, p, size, total, taker);
        var order := level.Peek().value;
        var matched := MatchFront(level, order, size - total, isBuy, p, taker);
        total := total + matched;
      }
      LevelFront(Image(), book, isBuy, p);
      LevelIsOver(book, isBuy, p, size, total, taker);
    }

    /** The body of the loop above: the first order of the level gives up to `amount` units. */
    method MatchFront(level: IntrusiveQueue, order: nat, amount: uint32,
                      ghost isBuy: bool, ghost p: uint64, ghost taker: Option<nat>)
      returns (matched: uint32)
      requires Consistent(isBuy, {p})
      requires p in LevelMap(isBuy) && LevelMap(isBuy)[p] == level
      requires var s := SideOf(book, isBuy); s != [] && s[0].slot == order && s[0].order.price == p
      requires amount > 0
      modifies this`book, pool, pool.store, level
      ensures Consistent(isBuy, {p})
      ensures matched == Min(amount, old(SideOf(book, isBuy))[0].order.size)
      ensures book == Consume(old(book), isBuy, taker, matched)
    {
      hide Sound, RemoveStep, FrontTaken, Consume, PoolRep;
      ghost var image, m := Image(), Min(amount, SideOf(book, isBuy)[0].order.size);
      assert LevelsOf(image, isBuy)[p] == level.GetHeader();
      hide Headers;
      TakeFront(image, book, isBuy, p, taker, amount);
      book := Consume(book, isBuy, taker, m);
      assert Image() == image;
      matched := TakeFromLevel(level, order, amount, isBuy, p);
    }

    /** As `TakeUnits`, seen from the whole book: nothing else moves. */
    method TakeFromLevel(level: IntrusiveQueue, order: nat, amount: uint32, ghost isBuy: bool, ghost p: uint64)
      returns (matched: uint32)
      requires Separate() && p in LevelMap(isBuy) && LevelMap(isBuy)[p] == level
      requires pool.Valid() && IsLive(pool.store[..], order)
      requires var size := At(pool.store[..], order).size;
        && FrontMayBeTaken(Image(), isBuy, p, order, Min(amount, size))
        && (size <= amount ==> MayBeClosed(pool.store[..], level.GetHeader(), pool.nextFree, pool.free, order))
      modifies pool, pool.store, level
      ensures var size := old(At(pool.store[..], order)).size;
        && matched == Min(amount, size)
        && pool.free == (if matched < size then old(pool.free) else [order] + old(pool.free))
      ensures Image() == FrontTaken(old(Image()), isBuy, p, order, matched)
    {
      hide RemoveStep, PoolRep, MayBeClosed;
      ghost var own, other := LevelMap(isBuy), LevelMap(!isBuy);
      ghost var levels, others := Headers(own), Headers(other);
      matched := TakeUnits(level, order, amount);
      OneLevelChanged(own, levels, p);
      assert Headers(other) == others;
    }

    /** Decreases the size of an order and, if nothing is left of it, unlinks and frees it. */
    method TakeUnits(level: IntrusiveQueue, order: nat, amount: uint32) returns (matched: uint32)
      requires pool.Valid() && IsLive(pool.store[..], order) && level.size > 0
      requires At(pool.store[..], order).size <= amount ==>
        MayBeClosed(pool.store[..], level.GetHeader(), pool.nextFree, pool.free, order)
      modifies pool, pool.store, level
      ensures var o := old(At(pool.store[..], order));
        && matched == Min(amount, o.size)
        && var c1 := Put(old(pool.store[..]), order, o.(size := o.size - matched));
           if matched < o.size then
             pool.Image() == PoolImage(c1, old(pool.nextFree)) && pool.free == old(pool.free)
             && level.GetHeader() == old(level.GetHeader())
           else
             NeighboursLive(c1, order)
             && var (c2, h) := RemoveStep(c1, old(level.GetHeader()), order);
             pool.Image() == DeallocateStep(PoolImage(c2, old(pool.nextFree)), order)
             && pool.free == [order] + old(pool.free) && level.GetHeader() == h
    {
      matched := DecreaseSize(pool.store, order, amount);
      if pool.store[order].storage.value.size == 0 {
        level.Remove(pool.store, order);
        pool.Deallocate(order);
      }
    }

    /** The depth a level is shown with: its sizes are added up along the `next` links in a 32-bit
        variable that wraps around.  Returns the orders visited too. */
    method LevelDepth(level: IntrusiveQueue, ghost isBuy: bool, ghost p: uint64)
      returns (depth: uint32, ghost visited: seq<nat>)
      requires Valid() && p in LevelMap(isBuy) && LevelMap(isBuy)[p] == level
      ensures visited == LevelOf(SideOf(book, isBuy), p)
      ensures depth == Wrap(Volume(SideOf(book, isBuy), Only(p)))
      ensures depth == Volume(SideOf(book, isBuy), Only(p)) <==> Volume(SideOf(book, isBuy), Only(p)) < TWO_TO_THE_32
    {
      hide Invariant, Rep, Volume, SizeSum, LevelOf;
      ghost var items := LevelOf(SideOf(book, isBuy), p);
      LevelWalk(Image(), book, isBuy, p);
      depth, visited := SumSizes(pool.store, level.head, items);
    }
  }

  /** The walk itself, along the links of a list. */
  method SumSizes(store: array<Element<Order>>, head: Option<nat>, ghost items: seq<nat>)
    returns (depth: uint32, ghost visited: seq<nat>)
    requires AllLive(store[..], items) && forall i: nat :: i < |items| ==> Linked(store[..], items, i)
    requires head == if items == [] then None else Some(items[0])
    ensures visited == items && depth == Wrap(SizeSum(store[..], items))
  {
    hide Wrap, SizeSum, AllLive;
    ghost var k, exact: nat := 0, 0;
    var order := head;
    depth, visited := 0, [];
    WalkEnd(store[..]);
    assert items[0..] == items;
    while order.Some?
      invariant k <= |items| && visited == items[..k]
      invariant order == if k < |items| then Some(items[k]) else None
      invariant depth == Wrap(exact)
      invariant AllLive(store[..], items[k..])
      invariant exact + SizeSum(store[..], items[k..]) == SizeSum(store[..], items)
      decreases |items| - k
    {
      assert Linked(store[..], items, k);
      var o := store[order.value].storage.value;
      WalkStep(store[..], items, k);
      WrapTwice(exact, o.size);
      k, exact := k + 1, exact + o.size;
      visited := visited + [order.value];
      depth := Wrap(depth + o.size);
      order := o.listNode.next;
    }
    assert items[k..] == [] && visited == items;
  }
}

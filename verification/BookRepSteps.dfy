/** The writes of each operation, as seen by the whole book: what one step of a matching loop, a new
    order and a cancellation do to the memory is what the operation on lists says. */
module BookRepSteps {
  import opened Basics
  import opened MemPools
  import opened Orders
  import opened IntrusiveQueues
  import opened PriceTime
  import opened Books
  import opened BookInvariants
  import opened BookRep
  import opened BookSteps
  import opened MatchSteps

  function LevelsOf(image: BookImage, isBuy: bool): Levels {
    if isBuy then image.bids else image.asks
  }

  function WithLevels(image: BookImage, isBuy: bool, levels: Levels): BookImage {
    if isBuy then image.(bids := levels) else image.(asks := levels)
  }

  /** As `Rep`, but levels of one side may be empty at the prices in `gap`. */
  ghost predicate RepGap(image: BookImage, b: Book, isBuy: bool, gap: set<uint64>) {
    && PoolRep(image.cells, image.next, b.free)
    && SideRep(image.cells, LevelsOf(image, isBuy), SideOf(b, isBuy), gap)
    && SideRep(image.cells, LevelsOf(image, !isBuy), SideOf(b, !isBuy), {})
    && IdleRep(image.cells, b.idle)
  }

  ghost predicate SameOutside(cells: Cells, cells': Cells, touched: seq<nat>) {
    |cells'| == |cells| && forall i: nat :: i < |cells| && i !in touched ==> cells'[i] == cells[i]
  }

  /** Everything a side does to its own slots is invisible to the rest of the book. */
  lemma RestOfBookFrame(image: BookImage, b: Book, isBuy: bool, cells': Cells, capacity: nat)
    requires SideRep(image.cells, LevelsOf(image, !isBuy), SideOf(b, !isBuy), {})
    requires IdleRep(image.cells, b.idle)
    requires SlotsOk(b, capacity) && SameOutside(image.cells, cells', Slots(SideOf(b, isBuy)))
    ensures SideRep(cells', LevelsOf(image, !isBuy), SideOf(b, !isBuy), {})
    ensures IdleRep(cells', b.idle)
  {
    var s, other := SideOf(b, isBuy), SideOf(b, !isBuy);
    forall x | x in Slots(other) ensures x !in Slots(s) {
      SlotIsInOnePlace(b, capacity, x);
    }
    SideFrame(image.cells, cells', LevelsOf(image, !isBuy), other, {});
    forall x | x in b.idle ensures IsLive(cells', x) && At(cells', x) == b.idle[x].order {
      SlotIsInOnePlace(b, capacity, x);
    }
  }

  lemma LinksOnlyKeepsPool(cells: Cells, cells': Cells, touched: seq<nat>, next: nat, free: seq<nat>)
    requires PoolRep(cells, next, free) && LinksOnly(cells, cells', touched)
    requires forall x :: x in touched ==> IsLive(cells, x)
    ensures PoolRep(cells', next, free)
  {
    PoolRepFrame(cells, cells', next, free);
  }

  lemma SideSlotsAreLive(cells: Cells, levels: Levels, s: seq<Entry>, gap: set<uint64>)
    requires SideRep(cells, levels, s, gap)
    ensures forall x :: x in Slots(s) ==> IsLive(cells, x)
  {
    forall x | x in Slots(s) ensures IsLive(cells, x) {
      var i := SlotIndex(s, x);
      assert InCell(cells, s[i]);
    }
  }

  // ---------- One step of a matching loop ----------

  /** The front order is larger than what is wanted: only its size is written. */
  lemma TakePart(image: BookImage, b: Book, isBuy: bool, gap: set<uint64>, taker: Option<nat>, m: nat)
    requires RepGap(image, b, isBuy, gap) && SlotsOk(b, |image.cells|)
    requires var s := SideOf(b, isBuy); s != [] && 0 < m < s[0].order.size
    ensures var e := SideOf(b, isBuy)[0];
      && IsLive(image.cells, e.slot) && At(image.cells, e.slot).size == e.order.size
      && var cells' := Put(image.cells, e.slot, At(image.cells, e.slot).(size := e.order.size - m));
         RepGap(image.(cells := cells'), Consume(b, isBuy, taker, m), isBuy, gap)
  {
    hide SideRep, IdleRep;
    var s := SideOf(b, isBuy);
    AtMostOnceIsDistinct(b, |image.cells|, Slots(s));
    ShrinkFront(image.cells, LevelsOf(image, isBuy), s, gap, m);
    var x := s[0].slot;
    var cells' := Put(image.cells, x, At(image.cells, x).(size := s[0].order.size - m));
    SlotsAt(s, 0);
    RestOfBookFrame(image, b, isBuy, cells', |image.cells|);
    PoolRepFrame(image.cells, cells', image.next, b.free);
  }

  /** The front order is used up: its size becomes zero, it leaves its level and its slot is freed. */
  lemma TakeWhole(image: BookImage, b: Book, isBuy: bool, gap: set<uint64>, taker: Option<nat>)
    requires RepGap(image, b, isBuy, gap) && SlotsOk(b, |image.cells|)
    requires var s := SideOf(b, isBuy); s != [] && s[0].order.size > 0
    ensures var e := SideOf(b, isBuy)[0];
      var x, p, levels := e.slot, e.order.price, LevelsOf(image, isBuy);
      && IsLive(image.cells, x) && At(image.cells, x).size == e.order.size
      && var c1 := Put(image.cells, x, At(image.cells, x).(size := 0));
      && NeighboursLive(c1, x) && p in levels && levels[p].size > 0
      && var (c2, h) := RemoveStep(c1, levels[p], x);
      && IsLive(c2, x) && PoolRep(c2, image.next, b.free)
      && |c2| == |image.cells|
      && var pool := DeallocateStep(PoolImage(c2, image.next), x);
         RepGap(WithLevels(BookImage(pool.cells, pool.next, image.bids, image.asks), isBuy, levels[p := h]),
                Consume(b, isBuy, taker, e.order.size), isBuy, gap + {p})
  {
    hide SideRep, IdleRep;
    var s, levels := SideOf(b, isBuy), LevelsOf(image, isBuy);
    var e := s[0];
    var x, p := e.slot, e.order.price;
    AtMostOnceIsDistinct(b, |image.cells|, Slots(s));
    ShrinkFront(image.cells, levels, s, gap, e.order.size);
    var c1 := Put(image.cells, x, At(image.cells, x).(size := 0));
    PoolRepFrame(image.cells, c1, image.next, b.free);
    UnlinkFront(c1, levels, s, gap, image.next, b.free);
    var (c2, h) := RemoveStep(c1, levels[p], x);
    FreeingStaysInside(image.cells, c1, c2, s, image.next);
    RestOfBookFrame(image, b, isBuy, DeallocateStep(PoolImage(c2, image.next), x).cells, |image.cells|);
    DrainOne(s);
  }

  lemma FreeingStaysInside(cells: Cells, c1: Cells, c2: Cells, s: seq<Entry>, next: nat)
    requires s != [] && IsLive(cells, s[0].slot) && c1 == Put(cells, s[0].slot, At(cells, s[0].slot).(size := 0))
    requires LinksOnly(c1, c2, Slots(s)) && IsLive(c2, s[0].slot)
    ensures SameOutside(cells, DeallocateStep(PoolImage(c2, next), s[0].slot).cells, Slots(s))
  {
    SlotsAt(s, 0);
  }

  lemma DrainOne(s: seq<Entry>)
    requires s != [] && s[0].order.size > 0
    ensures Drain(s, s[0].order.size) == s[1..] && Emptied(s, s[0].order.size) == [s[0].slot]
    ensures forall free: seq<nat> :: Release(free, [s[0].slot]) == [s[0].slot] + free
  {
  }

  /** Unlinking an order of a side and freeing its slot. */
  lemma UnlinkAndFree(cells: Cells, levels: Levels, s: seq<Entry>, gap: set<uint64>, x: nat, next: nat, free: seq<nat>)
    requires SideRep(cells, levels, s, gap) && x in Slots(s) && x !in Slots(Delete(s, x))
    requires PoolRep(cells, next, free)
    ensures var p := Find(s, x).order.price;
      && IsLive(cells, x) && NeighboursLive(cells, x) && p in levels && levels[p].size > 0
      && At(cells, x).price == p
      && var (cells', h) := RemoveStep(cells, levels[p], x);
      && h.size == |LevelOf(Delete(s, x), p)|
      && LinksOnly(cells, cells', Slots(s)) && IsLive(cells', x) && PoolRep(cells', next, free)
      && var pool := DeallocateStep(PoolImage(cells', next), x);
         && PoolRep(pool.cells, pool.next, [x] + free)
         && SideRep(pool.cells, levels[p := h], Delete(s, x), gap + {p})
         && SameOutside(cells, pool.cells, Slots(s))
  {
    var p := Find(s, x).order.price;
    RemoveFromSide(cells, levels, s, gap, x);
    var (cells', h) := RemoveStep(cells, levels[p], x);
    SideSlotsAreLive(cells, levels, s, gap);
    LinksOnlyKeepsPool(cells, cells', Slots(s), next, free);
    DeallocateKeepsRep(PoolImage(cells', next), free, x);
    SideFrame(cells', DeallocateStep(PoolImage(cells', next), x).cells, levels[p := h], Delete(s, x), gap + {p});
  }

  /** The same for the front order once its size is zero. */
  lemma UnlinkFront(c1: Cells, levels: Levels, s: seq<Entry>, gap: set<uint64>, next: nat, free: seq<nat>)
    requires s != [] && Distinct(Slots(s)) && SideRep(c1, levels, [Shrunk(s[0], s[0].order.size)] + s[1..], gap)
    requires PoolRep(c1, next, free)
    ensures var x, p := s[0].slot, s[0].order.price;
      && IsLive(c1, x) && NeighboursLive(c1, x) && p in levels && levels[p].size > 0
      && var (c2, h) := RemoveStep(c1, levels[p], x);
      && LinksOnly(c1, c2, Slots(s)) && IsLive(c2, x) && PoolRep(c2, next, free)
      && var pool := DeallocateStep(PoolImage(c2, next), x);
         && PoolRep(pool.cells, pool.next, [x] + free)
         && SideRep(pool.cells, levels[p := h], s[1..], gap + {p})
  {
    var x := s[0].slot;
    var t := [Shrunk(s[0], s[0].order.size)] + s[1..];
    assert t[1..] == s[1..];
    assert Slots(t) == Slots(s) && Slots(t)[0] == x;
    forall y | y in Slots(s[1..]) ensures y != x {
      assert Slots(s)[1..] == Slots(s[1..]);
    }
    assert Delete(t, x) == s[1..];
    UnlinkAndFree(c1, levels, t, gap, x, next, free);
  }

  /** A level that became empty is erased; the gap closes. */
  lemma EraseEmptyLevel(cells: Cells, levels: Levels, s: seq<Entry>, p: uint64)
    requires SideRep(cells, levels, s, {p})
    ensures LevelOf(s, p) == [] ==> SideRep(cells, levels - {p}, s, {})
    ensures LevelOf(s, p) != [] ==> SideRep(cells, levels, s, {})
  {
    if LevelOf(s, p) == [] {
      forall i: nat | i < |s| ensures InCell(cells, s[i]) && s[i].order.price in levels - {p} {
        assert InCell(cells, s[i]);
        var _ := MemberOfLevel(s, i);
      }
      forall q | q in levels - {p} ensures LevelRep(cells, levels - {p}, s, q) {
        assert LevelRep(cells, levels, s, q);
      }
    }
  }

  // ---------- A new order ----------

  /** Taking a slot for a new order, which then belongs to its owner. */
  lemma AdmitRep(image: BookImage, b: Book, order: Order)
    requires Rep(image, b) && SlotsOk(b, |image.cells|) && b.free != [] && order.listNode == DETACHED
    ensures image.next < |image.cells| && image.cells[image.next].storage.Link? && image.next == b.free[0]
    ensures var pool := AllocateStep(PoolImage(image.cells, image.next), order).0;
      Rep(BookImage(pool.cells, pool.next, image.bids, image.asks), Admit(b, order))
  {
    AllocateKeepsRep(PoolImage(image.cells, image.next), b.free, order);
    var pool := AllocateStep(PoolImage(image.cells, image.next), order).0;
    SlotIsInOnePlace(b, |image.cells|, b.free[0]);
    SideFrame(image.cells, pool.cells, image.bids, b.bids, {});
    SideFrame(image.cells, pool.cells, image.asks, b.asks, {});
  }

  /** Writing the open size into an order that stands in no queue. */
  lemma ResizeIdle(image: BookImage, b: Book, slot: nat, n: nat)
    requires Rep(image, b) && SlotsOk(b, |image.cells|)
    requires slot in b.idle && b.idle[slot].slot == slot && n <= b.idle[slot].order.size
    ensures IsLive(image.cells, slot) && At(image.cells, slot) == b.idle[slot].order
    ensures var order := At(image.cells, slot);
      Rep(image.(cells := Put(image.cells, slot, order.(size := order.size - n))),
          b.(idle := b.idle[slot := Shrunk(b.idle[slot], n)]))
  {
    var order := At(image.cells, slot);
    var cells' := Put(image.cells, slot, order.(size := order.size - n));
    SlotIsInOnePlace(b, |image.cells|, slot);
    SideFrame(image.cells, cells', image.bids, b.bids, {});
    SideFrame(image.cells, cells', image.asks, b.asks, {});
    PoolRepFrame(image.cells, cells', image.next, b.free);
  }

  /** Resting: the order joins the end of the level of its price, which may be new. */
  lemma RestRep(image: BookImage, b: Book, slot: nat)
    requires Rep(image, b) && SlotsOk(b, |image.cells|) && slot in b.idle
    requires b.idle[slot].slot == slot && b.idle[slot].order.listNode == DETACHED && b.idle[slot].order.size > 0
    requires var isBuy := b.idle[slot].order.isBuySide; Sorted(isBuy, SideOf(b, isBuy))
    ensures IsLive(image.cells, slot)
    ensures var e := b.idle[slot];
      var isBuy, p := e.order.isBuySide, e.order.price;
      var levels := LevelsOf(image, isBuy);
      var h := if p in levels then levels[p] else EMPTY;
      && ListRep(image.cells, h, LevelOf(SideOf(b, isBuy), p))
      && slot !in LevelOf(SideOf(b, isBuy), p)
      && (h.head.Some? ==> h.tail.Some? && IsLive(image.cells, h.tail.value))
      && var (cells', h') := AppendStep(image.cells, h, slot);
         && PoolRep(cells', image.next, b.free)
         && Rep(WithLevels(image.(cells := cells'), isBuy, levels[p := h']), Settle(b, slot, 0))
  {
    var e := b.idle[slot];
    var isBuy, p := e.order.isBuySide, e.order.price;
    var levels, s := LevelsOf(image, isBuy), SideOf(b, isBuy);
    SlotIsInOnePlace(b, |image.cells|, slot);
    AppendToSide(image.cells, levels, s, isBuy, e);
    var (cells', h') := AppendStep(image.cells, if p in levels then levels[p] else EMPTY, slot);
    SideSlotsAreLive(image.cells, levels, s, {});
    LinksOnlyKeepsPool(image.cells, cells', Slots(s) + [slot], image.next, b.free);
    RestingFrame(image, b, isBuy, slot, cells');
  }

  lemma RestingFrame(image: BookImage, b: Book, isBuy: bool, slot: nat, cells': Cells)
    requires Rep(image, b) && SlotsOk(b, |image.cells|) && slot in b.idle
    requires SameOutside(image.cells, cells', Slots(SideOf(b, isBuy)) + [slot])
    ensures SideRep(cells', LevelsOf(image, !isBuy), SideOf(b, !isBuy), {})
    ensures IdleRep(cells', b.idle - {slot})
  {
    forall x | x in Slots(SideOf(b, !isBuy)) ensures x !in Slots(SideOf(b, isBuy)) + [slot] {
      SlotIsInOnePlace(b, |image.cells|, x);
    }
    SideFrame(image.cells, cells', LevelsOf(image, !isBuy), SideOf(b, !isBuy), {});
    forall x | x in b.idle - {slot} ensures IsLive(cells', x) && At(cells', x) == b.idle[x].order {
      SlotIsInOnePlace(b, |image.cells|, x);
    }
  }

  // ---------- Cancelling ----------

  /** Unlinking whenever a level exists at the price, and erasing the level if it reports itself empty. */
  ghost function UnlinkStep(cells: Cells, levels: Levels, p: uint64, slot: nat): (Cells, Levels)
    requires IsLive(cells, slot) && NeighboursLive(cells, slot) && (p in levels ==> levels[p].size > 0)
  {
    if p in levels then
      var (cells', h) := RemoveStep(cells, levels[p], slot);
      (cells', if h.size == 0 then levels - {p} else levels[p := h])
    else
      (cells, levels)
  }

  /** The writes of `cancelOrder` for any live order: unlink, then free the slot. */
  ghost function CancelImage(image: BookImage, slot: nat): BookImage
    requires CancelMayRun(image, slot)
  {
    var order := At(image.cells, slot);
    var (cells, levels) := UnlinkStep(image.cells, LevelsOf(image, order.isBuySide), order.price, slot);
    var pool := DeallocateStep(PoolImage(cells, image.next), slot);
    WithLevels(BookImage(pool.cells, pool.next, image.bids, image.asks), order.isBuySide, levels)
  }

  ghost predicate CancelMayRun(image: BookImage, slot: nat) {
    && IsLive(image.cells, slot) && NeighboursLive(image.cells, slot)
    && var order := At(image.cells, slot);
       var levels := LevelsOf(image, order.isBuySide);
       order.price in levels ==> levels[order.price].size > 0
  }

  /** A live order rests on the side written in it or is with its owner. */
  lemma LiveOrderIsSomewhere(image: BookImage, b: Book, capacity: nat, slot: nat)
    requires Rep(image, b) && Invariant(b, capacity) && capacity == |image.cells| && IsLive(image.cells, slot)
    ensures Resting(b, slot) || slot in b.idle
    ensures Resting(b, slot) ==> slot in Slots(SideOf(b, At(image.cells, slot).isBuySide))
    ensures slot in Slots(b.bids) ==> At(image.cells, slot).isBuySide
    ensures slot in Slots(b.asks) ==> !At(image.cells, slot).isBuySide
  {
    SlotIsInOnePlace(b, capacity, slot);
    if slot in Slots(b.bids) {
      var i := SlotIndex(b.bids, slot);
      assert InCell(image.cells, b.bids[i]);
    }
    if slot in Slots(b.asks) {
      var i := SlotIndex(b.asks, slot);
      assert InCell(image.cells, b.asks[i]);
    }
  }

  /** For any live order the writes of `cancelOrder` are within bounds and spare the free list. */
  lemma CancelRuns(image: BookImage, b: Book, capacity: nat, slot: nat)
    requires Rep(image, b) && Invariant(b, capacity) && capacity == |image.cells| && IsLive(image.cells, slot)
    ensures CancelMayRun(image, slot)
    ensures var order := At(image.cells, slot);
      var cells := UnlinkStep(image.cells, LevelsOf(image, order.isBuySide), order.price, slot).0;
      IsLive(cells, slot) && PoolRep(cells, image.next, b.free)
  {
    hide RemoveStep, PoolRep;
    LiveOrderIsSomewhere(image, b, capacity, slot);
    var isBuy, p := At(image.cells, slot).isBuySide, At(image.cells, slot).price;
    var levels := LevelsOf(image, isBuy);
    if Resting(b, slot) {
      RemoveFromLevel(image.cells, levels, SideOf(b, isBuy), {}, slot);
    }
    if p in levels {
      assert LevelRep(image.cells, levels, SideOf(b, isBuy), p);
      UnlinkingKeepsPool(image.cells, levels[p], slot, image.next, b.free);
    }
  }

  lemma UnlinkingKeepsPool(cells: Cells, h: Header, slot: nat, next: nat, free: seq<nat>)
    requires IsLive(cells, slot) && NeighboursLive(cells, slot) && h.size > 0 && PoolRep(cells, next, free)
    ensures var cells' := RemoveStep(cells, h, slot).0;
      IsLive(cells', slot) && PoolRep(cells', next, free)
  {
    RemoveUnlinks(cells, h, slot);
    PoolRepFrame(cells, RemoveStep(cells, h, slot).0, next, free);
  }

  lemma CancelRestingRep(image: BookImage, b: Book, capacity: nat, slot: nat)
    requires Rep(image, b) && Invariant(b, capacity) && capacity == |image.cells| && Resting(b, slot)
    ensures CancelMayRun(image, slot) && Rep(CancelImage(image, slot), CancelOrder(b, slot))
  {
    hide SideRep, IdleRep, PoolRep, RemoveStep;
    var isBuy := slot in Slots(b.bids);
    var s, levels := SideOf(b, isBuy), LevelsOf(image, isBuy);
    var p := Find(s, slot).order.price;
    DeletedSlotIsGone(s, slot, b, capacity, isBuy);
    UnlinkAndFree(image.cells, levels, s, {}, slot, image.next, b.free);
    LiveOrderIsSomewhere(image, b, capacity, slot);
    CancelRuns(image, b, capacity, slot);
    var (cells, h) := RemoveStep(image.cells, levels[p], slot);
    var pool := DeallocateStep(PoolImage(cells, image.next), slot);
    RestOfBookFrame(image, b, isBuy, pool.cells, capacity);
    assert {} + {p} == {p};
    EraseEmptyLevel(pool.cells, levels[p := h], Delete(s, slot), p);
    assert levels[p := h] - {p} == levels - {p};
  }

  lemma DeletedSlotIsGone(s: seq<Entry>, slot: nat, b: Book, capacity: nat, isBuy: bool)
    requires SlotsOk(b, capacity) && s == SideOf(b, isBuy) && slot in Slots(s)
    ensures slot !in Slots(Delete(s, slot))
  {
    AtMostOnceIsDistinct(b, capacity, Slots(s));
    DeleteTakesSlot(s, slot);
    assert Places(b, slot) <= 1;
    assert multiset(Slots(Delete(s, slot)))[slot] == 0;
  }

  lemma CancelIdleRep(image: BookImage, b: Book, capacity: nat, slot: nat)
    requires Rep(image, b) && Invariant(b, capacity) && capacity == |image.cells|
    requires !Resting(b, slot) && Cancellable(b, slot)
    ensures CancelMayRun(image, slot) && Rep(CancelImage(image, slot), CancelOrder(b, slot))
  {
    CancelRuns(image, b, capacity, slot);
    LiveOrderIsSomewhere(image, b, capacity, slot);
    var isBuy, p := At(image.cells, slot).isBuySide, At(image.cells, slot).price;
    assert p !in LevelsOf(image, isBuy);
    FreeIdle(image, b, capacity, slot);
  }

  lemma FreeIdle(image: BookImage, b: Book, capacity: nat, slot: nat)
    requires Rep(image, b) && SlotsOk(b, capacity) && capacity == |image.cells| && slot in b.idle
    ensures IsLive(image.cells, slot)
    ensures var pool := DeallocateStep(PoolImage(image.cells, image.next), slot);
      Rep(BookImage(pool.cells, pool.next, image.bids, image.asks), b.(idle := b.idle - {slot}, free := [slot] + b.free))
  {
    var pool := DeallocateStep(PoolImage(image.cells, image.next), slot);
    SlotIsInOnePlace(b, capacity, slot);
    DeallocateKeepsRep(PoolImage(image.cells, image.next), b.free, slot);
    SideFrame(image.cells, pool.cells, image.bids, b.bids, {});
    SideFrame(image.cells, pool.cells, image.asks, b.asks, {});
  }

  // ---------- Steps of a match, with all they keep ----------

  /** The memory holds an orderly book, one level possibly empty. */
  ghost predicate Sound(image: BookImage, b: Book, isBuy: bool, gap: set<uint64>) {
    RepGap(image, b, isBuy, gap) && Orderly(b, |image.cells|)
  }

  /** The memory after the front order `x` of the level at `p` has lost `m` of its units. */
  ghost function FrontTaken(image: BookImage, isBuy: bool, p: uint64, x: nat, m: nat): BookImage
    requires FrontMayBeTaken(image, isBuy, p, x, m)
  {
    var levels := LevelsOf(image, isBuy);
    var order := At(image.cells, x);
    var c1 := Put(image.cells, x, order.(size := order.size - m));
    if m < order.size then image.(cells := c1)
    else
      var (c2, h) := RemoveStep(c1, levels[p], x);
      var pool := DeallocateStep(PoolImage(c2, image.next), x);
      WithLevels(BookImage(pool.cells, pool.next, image.bids, image.asks), isBuy, levels[p := h])
  }

  ghost predicate FrontMayBeTaken(image: BookImage, isBuy: bool, p: uint64, x: nat, m: nat) {
    && IsLive(image.cells, x) && m <= At(image.cells, x).size
    && p in LevelsOf(image, isBuy) && LevelsOf(image, isBuy)[p].size > 0
    && var c1 := Put(image.cells, x, At(image.cells, x).(size := At(image.cells, x).size - m));
       NeighboursLive(c1, x)
  }

  /** An order with nothing left can be unlinked and freed. */
  ghost predicate MayBeClosed(cells: Cells, h: Header, next: nat, free: seq<nat>, x: nat)
    requires IsLive(cells, x)
  {
    var c1 := Put(cells, x, At(cells, x).(size := 0));
    && NeighboursLive(c1, x) && h.size > 0
    && var c2 := RemoveStep(c1, h, x).0;
       IsLive(c2, x) && PoolRep(c2, next, free)
  }

  lemma TakeFront(image: BookImage, b: Book, isBuy: bool, p: uint64, taker: Option<nat>, wanted: nat)
    requires Sound(image, b, isBuy, {p}) && wanted > 0
    requires var s := SideOf(b, isBuy); s != [] && s[0].order.price == p
    ensures var e := SideOf(b, isBuy)[0];
      var m := Min(wanted, e.order.size);
      && IsLive(image.cells, e.slot) && At(image.cells, e.slot).size == e.order.size
      && FrontMayBeTaken(image, isBuy, p, e.slot, m)
      && Sound(FrontTaken(image, isBuy, p, e.slot, m), Consume(b, isBuy, taker, m), isBuy, {p})
      && (m == e.order.size ==> MayBeClosed(image.cells, LevelsOf(image, isBuy)[p], image.next, b.free, e.slot))
      && PoolRep(image.cells, image.next, b.free)
      && Consume(b, isBuy, taker, m).free == if m < e.order.size then b.free else [e.slot] + b.free
  {
    hide SideRep, IdleRep, PoolRep, RemoveStep;
    var s := SideOf(b, isBuy);
    var m := Min(wanted, s[0].order.size);
    assert {p} + {p} == {p};
    ConsumeKeepsOrder(b, |image.cells|, isBuy, taker, m);
    FrontIsThere(image, b, isBuy, p, m);
    if m < s[0].order.size {
      TakePart(image, b, isBuy, {p}, taker, m);
    } else {
      DrainOne(s);
      TakeWhole(image, b, isBuy, {p}, taker);
    }
  }

  lemma FrontIsThere(image: BookImage, b: Book, isBuy: bool, p: uint64, m: nat)
    requires Sound(image, b, isBuy, {p})
    requires var s := SideOf(b, isBuy); s != [] && s[0].order.price == p && m <= s[0].order.size
    ensures var e := SideOf(b, isBuy)[0];
      && IsLive(image.cells, e.slot) && At(image.cells, e.slot).size == e.order.size
      && FrontMayBeTaken(image, isBuy, p, e.slot, m)
  {
    var s, levels := SideOf(b, isBuy), LevelsOf(image, isBuy);
    assert InCell(image.cells, s[0]) && LevelRep(image.cells, levels, s, p);
    MemberMayBeRemoved(image.cells, levels[p], LevelOf(s, p), 0);
    ResizingKeepsNeighbours(image.cells, s[0].slot, s[0].order.size - m);
  }

  lemma ResizingKeepsNeighbours(cells: Cells, x: nat, size: uint32)
    requires IsLive(cells, x) && NeighboursLive(cells, x)
    ensures NeighboursLive(Put(cells, x, At(cells, x).(size := size)), x)
  {
  }

  /** The head of a level whose orders come first is the front of the side. */
  lemma LevelFront(image: BookImage, b: Book, isBuy: bool, p: uint64)
    requires Sound(image, b, isBuy, {p}) && p in LevelsOf(image, isBuy) && Reachable(SideOf(b, isBuy), Only(p))
    ensures var s, h := SideOf(b, isBuy), LevelsOf(image, isBuy)[p];
      && (h.size == 0 <==> Volume(s, Only(p)) == 0)
      && (h.size == 0 <==> LevelOf(s, p) == [])
      && (h.size > 0 ==>
            s != [] && s[0].order.price == p && s[0].order.size > 0 && h.head == Some(s[0].slot))
  {
    var s := SideOf(b, isBuy);
    assert LevelRep(image.cells, LevelsOf(image, isBuy), s, p);
    LevelVolume(s, p);
    if LevelOf(s, p) != [] {
      HeadIsFront(s, p);
    }
  }

  /** The least (or greatest) key of the map of levels is the best price of the side. */
  lemma BestKey(image: BookImage, b: Book, isBuy: bool, p: uint64)
    requires Sound(image, b, isBuy, {}) && p in LevelsOf(image, isBuy)
    requires forall q :: q in LevelsOf(image, isBuy) ==> !BetterPrice(isBuy, q, p)
    ensures Sound(image, b, isBuy, {p}) && Reachable(SideOf(b, isBuy), Only(p)) && Orderly(b, |image.cells|)
    ensures SideOf(b, isBuy) != [] && SideOf(b, isBuy)[0].order.price == p
  {
    var s := SideOf(b, isBuy);
    forall i: nat | i < |s| ensures !BetterPrice(isBuy, s[i].order.price, p) {
      assert InCell(image.cells, s[i]);
    }
    BestLevelIsFirst(b.accepted, s, isBuy, p);
    HeadIsFront(s, p);
  }

  lemma LevelsCoverSide(image: BookImage, b: Book, isBuy: bool)
    requires Sound(image, b, isBuy, {})
    ensures LevelsOf(image, isBuy) == map[] ==> SideOf(b, isBuy) == []
    ensures Orderly(b, |image.cells|)
  {
    var s := SideOf(b, isBuy);
    if s != [] {
      assert InCell(image.cells, s[0]);
      assert s[0].order.price in LevelsOf(image, isBuy);
    }
  }

  lemma EraseLevel(image: BookImage, b: Book, isBuy: bool, p: uint64)
    requires Sound(image, b, isBuy, {p}) && p in LevelsOf(image, isBuy)
    ensures var levels := LevelsOf(image, isBuy);
      && (levels[p].size == 0 ==> Sound(WithLevels(image, isBuy, levels - {p}), b, isBuy, {}))
      && (levels[p].size > 0 ==> Sound(image, b, isBuy, {}))
  {
    var levels := LevelsOf(image, isBuy);
    EraseEmptyLevel(image.cells, levels, SideOf(b, isBuy), p);
    assert LevelRep(image.cells, levels, SideOf(b, isBuy), p);
  }

  /** With no empty levels it does not matter which side is being worked on. */
  lemma SoundBothWays(image: BookImage, b: Book, isBuy: bool)
    requires Sound(image, b, isBuy, {})
    ensures Sound(image, b, !isBuy, {}) && Rep(image, b)
  {
  }

  lemma SoundFromValid(image: BookImage, b: Book, isBuy: bool)
    requires Rep(image, b) && Invariant(b, |image.cells|)
    ensures Sound(image, b, isBuy, {})
  {
  }

  /** Taking a slot for a new order leaves the book sound whichever side is matched next. */
  lemma AdmitSound(image: BookImage, b: Book, isBuy: bool, order: Order)
    requires Sound(image, b, isBuy, {}) && b.free != [] && order.listNode == DETACHED
    ensures image.next < |image.cells| && image.cells[image.next].storage.Link? && image.next == b.free[0]
    ensures var pool := AllocateStep(PoolImage(image.cells, image.next), order).0;
      var image' := BookImage(pool.cells, pool.next, image.bids, image.asks);
      Sound(image', Admit(b, order), true, {}) && Sound(image', Admit(b, order), false, {})
  {
    AdmitRep(image, b, order);
    AdmitKeepsOrder(b, |image.cells|, order);
  }

  lemma ResizeSound(image: BookImage, b: Book, isBuy: bool, slot: nat, n: nat)
    requires Sound(image, b, isBuy, {})
    requires slot in b.idle && b.idle[slot].slot == slot && n <= b.idle[slot].order.size
    ensures IsLive(image.cells, slot) && At(image.cells, slot) == b.idle[slot].order
    ensures var order := At(image.cells, slot);
      Sound(image.(cells := Put(image.cells, slot, order.(size := order.size - n))),
            b.(idle := b.idle[slot := Shrunk(b.idle[slot], n)]), isBuy, {})
  {
    ResizeIdle(image, b, slot, n);
    ResizeKeepsOrder(b, |image.cells|, slot, Shrunk(b.idle[slot], n));
  }

  /** The memory after the order in `slot` has joined the end of the level of its price. */
  ghost function Rested(image: BookImage, isBuy: bool, p: uint64, slot: nat): BookImage
    requires IsLive(image.cells, slot) && MayJoin(image, isBuy, p)
  {
    var levels := LevelsOf(image, isBuy);
    var (cells', h) := AppendStep(image.cells, HeaderAt(levels, p), slot);
    WithLevels(image.(cells := cells'), isBuy, levels[p := h])
  }

  /** Looking up a price that has no level yet makes an empty one. */
  function HeaderAt(levels: Levels, p: uint64): Header {
    if p in levels then levels[p] else EMPTY
  }

  ghost predicate MayJoin(image: BookImage, isBuy: bool, p: uint64) {
    var h := HeaderAt(LevelsOf(image, isBuy), p);
    h.head.Some? ==> h.tail.Some? && IsLive(image.cells, h.tail.value)
  }

  lemma RestSound(image: BookImage, b: Book, isBuy: bool, slot: nat)
    requires Sound(image, b, isBuy, {}) && slot in b.idle
    requires b.idle[slot].slot == slot && b.idle[slot].order.listNode == DETACHED
    requires b.idle[slot].order.size > 0 && b.idle[slot].order.isBuySide == isBuy
    ensures var p := b.idle[slot].order.price;
      && IsLive(image.cells, slot) && MayJoin(image, isBuy, p)
      && ListRep(image.cells, HeaderAt(LevelsOf(image, isBuy), p), LevelOf(SideOf(b, isBuy), p))
      && slot !in LevelOf(SideOf(b, isBuy), p)
      && Rep(Rested(image, isBuy, p, slot), Settle(b, slot, 0))
  {
    RestRep(image, b, slot);
  }

  lemma SoundGivesPool(image: BookImage, b: Book, isBuy: bool, gap: set<uint64>)
    requires Sound(image, b, isBuy, gap)
    ensures PoolRep(image.cells, image.next, b.free) && Orderly(b, |image.cells|)
  {
  }

  /** For a cancellable order, the writes of `cancelOrder` are what cancelling it means. */
  lemma CancelMeaning(image: BookImage, b: Book, slot: nat)
    requires Rep(image, b) && Invariant(b, |image.cells|) && IsLive(image.cells, slot)
    ensures CancelMayRun(image, slot)
    ensures var order := At(image.cells, slot);
      var cells := UnlinkStep(image.cells, LevelsOf(image, order.isBuySide), order.price, slot).0;
      IsLive(cells, slot) && PoolRep(cells, image.next, b.free)
    ensures Cancellable(b, slot) ==>
      && CancelOrder(b, slot).free == [slot] + b.free
      && Rep(CancelImage(image, slot), CancelOrder(b, slot))
      && Invariant(CancelOrder(b, slot), |image.cells|)
  {
    CancelRuns(image, b, |image.cells|, slot);
    if Cancellable(b, slot) {
      CancelKeepsInvariant(b, |image.cells|, slot);
      if Resting(b, slot) {
        CancelRestingRep(image, b, |image.cells|, slot);
      } else {
        CancelIdleRep(image, b, |image.cells|, slot);
      }
    }
  }

  // ---------- Walking a level ----------

  ghost predicate AllLive(cells: Cells, items: seq<nat>) {
    forall i: nat :: i < |items| ==> IsLive(cells, items[i])
  }

  ghost function SizeSum(cells: Cells, items: seq<nat>): nat
    requires AllLive(cells, items)
  {
    if items == [] then 0 else At(cells, items[0]).size + SizeSum(cells, items[1..])
  }

  /** What the walk along a level relies on: it starts at the head of the list, each link leads to the
      next order, and the sizes in the slots add up to the volume of the level. */
  lemma LevelWalk(image: BookImage, b: Book, isBuy: bool, p: uint64)
    requires Rep(image, b) && p in LevelsOf(image, isBuy)
    ensures var items := LevelOf(SideOf(b, isBuy), p);
      && LevelsOf(image, isBuy)[p].head == (if items == [] then None else Some(items[0]))
      && AllLive(image.cells, items)
      && (forall i: nat :: i < |items| ==> Linked(image.cells, items, i))
      && SizeSum(image.cells, items) == Volume(SideOf(b, isBuy), Only(p))
  {
    var s := SideOf(b, isBuy);
    var items := LevelOf(s, p);
    assert LevelRep(image.cells, LevelsOf(image, isBuy), s, p);
    forall i: nat | i < |items| ensures IsLive(image.cells, items[i]) {
      assert Linked(image.cells, items, i);
    }
    LevelSizes(image.cells, s, p);
  }

  lemma {:induction false} LevelSizes(cells: Cells, s: seq<Entry>, p: uint64)
    requires AllLive(cells, LevelOf(s, p)) && forall i: nat :: i < |s| ==> InCell(cells, s[i])
    ensures SizeSum(cells, LevelOf(s, p)) == Volume(s, Only(p))
  {
    if s != [] {
      assert InCell(cells, s[0]);
      forall i: nat | i < |s[1..]| ensures InCell(cells, s[1..][i]) {
        assert InCell(cells, s[i + 1]);
      }
      var rest := LevelOf(s[1..], p);
      forall i: nat | i < |rest| ensures IsLive(cells, rest[i]) {
        assert rest[i] == LevelOf(s, p)[if s[0].order.price == p then i + 1 else i];
      }
      LevelSizes(cells, s[1..], p);
      if s[0].order.price == p {
        assert LevelOf(s, p)[1..] == rest;
      }
    }
  }

  lemma WalkStep(cells: Cells, items: seq<nat>, k: nat)
    requires k < |items| && AllLive(cells, items)
    ensures AllLive(cells, items[k..]) && AllLive(cells, items[k + 1..]) && IsLive(cells, items[k])
    ensures SizeSum(cells, items[k..]) == At(cells, items[k]).size + SizeSum(cells, items[k + 1..])
  {
    assert items[k..][1..] == items[k + 1..];
  }

  lemma WalkEnd(cells: Cells)
    ensures AllLive(cells, []) && SizeSum(cells, []) == 0 && Wrap(0) == 0
  {
  }
}

/** How a book lies in memory: the slots of the pool, the links between them and the headers of the
    price levels. */
module BookRep {
  import opened Basics
  import opened MemPools
  import opened Orders
  import opened IntrusiveQueues
  import opened PriceTime
  import opened Books
  import opened BookInvariants

  type Levels = map<uint64, Header>

  datatype BookImage = BookImage(cells: Cells, next: nat, bids: Levels, asks: Levels)

  /** The slot holds the order of the entry; its links are the business of the level. */
  ghost predicate InCell(cells: Cells, e: Entry) {
    IsLive(cells, e.slot) && Payload(At(cells, e.slot)) == e.order
  }

  ghost predicate LevelRep(cells: Cells, levels: Levels, s: seq<Entry>, price: uint64)
    requires price in levels
  {
    ListRep(cells, levels[price], LevelOf(s, price))
  }

  /** One side: a level for every price at which orders rest, each level a queue of exactly the orders
      at its price in order of arrival.  Levels may be empty only at the prices in `gap`, which is
      where a matching loop is at work. */
  ghost predicate SideRep(cells: Cells, levels: Levels, s: seq<Entry>, gap: set<uint64>) {
    && (forall i: nat :: i < |s| ==> InCell(cells, s[i]) && s[i].order.price in levels)
    && (forall p :: p in levels ==> LevelRep(cells, levels, s, p))
    && (forall p :: p in levels && p !in gap ==> LevelOf(s, p) != [])
  }

  /** Orders with their owners stand in no queue. */
  ghost predicate IdleRep(cells: Cells, idle: map<nat, Entry>) {
    forall x :: x in idle ==> IsLive(cells, x) && At(cells, x) == idle[x].order
  }

  ghost predicate Rep(image: BookImage, b: Book) {
    && PoolRep(image.cells, image.next, b.free)
    && SideRep(image.cells, image.bids, b.bids, {})
    && SideRep(image.cells, image.asks, b.asks, {})
    && IdleRep(image.cells, b.idle)
  }

  // ---------- Levels of a list ----------

  lemma {:induction false} LevelMember(s: seq<Entry>, price: uint64, slot: nat) returns (i: nat)
    requires slot in LevelOf(s, price)
    ensures i < |s| && s[i].slot == slot && s[i].order.price == price
  {
    if s[0].order.price == price && s[0].slot == slot {
      i := 0;
    } else {
      i := LevelMember(s[1..], price, slot);
      i := i + 1;
    }
  }

  lemma {:induction false} MemberOfLevel(s: seq<Entry>, i: nat) returns (k: nat)
    requires i < |s|
    ensures var level := LevelOf(s, s[i].order.price);
      k < |level| && level[k] == s[i].slot
  {
    if i == 0 {
      k := 0;
    } else {
      k := MemberOfLevel(s[1..], i - 1);
      k := k + (if s[0].order.price == s[i].order.price then 1 else 0);
    }
  }

  /** Deleting an order deletes it from its own level only. */
  lemma {:induction false} OwnLevelOfDelete(s: seq<Entry>, slot: nat) returns (k: nat)
    requires slot in Slots(s)
    ensures var level := LevelOf(s, Find(s, slot).order.price);
      && k < |level| && level[k] == slot
      && LevelOf(Delete(s, slot), Find(s, slot).order.price) == Without(level, k)
  {
    var price := Find(s, slot).order.price;
    if s[0].slot == slot {
      k := 0;
      assert Without(LevelOf(s, price), 0) == LevelOf(s[1..], price);
    } else {
      k := OwnLevelOfDelete(s[1..], slot);
      if s[0].order.price == price {
        WithoutBehind(s[0].slot, LevelOf(s[1..], price), k);
        k := k + 1;
      }
    }
  }

  lemma WithoutBehind(x: nat, items: seq<nat>, k: nat)
    requires k < |items|
    ensures Without([x] + items, k + 1) == [x] + Without(items, k)
  {
  }

  lemma {:induction false} OtherLevelOfDelete(s: seq<Entry>, slot: nat, price: uint64)
    requires slot in Slots(s) && Find(s, slot).order.price != price
    ensures LevelOf(Delete(s, slot), price) == LevelOf(s, price)
  {
    if s[0].slot != slot {
      OtherLevelOfDelete(s[1..], slot, price);
    }
  }

  /** A newcomer joins the end of its own level only. */
  lemma {:induction false} LevelOfInsert(isBuy: bool, s: seq<Entry>, e: Entry, price: uint64)
    requires Sorted(isBuy, s)
    ensures LevelOf(Insert(isBuy, s, e), price)
            == if e.order.price == price then LevelOf(s, price) + [e.slot] else LevelOf(s, price)
  {
    if s == [] || BetterPrice(isBuy, e.order.price, s[0].order.price) {
      assert ([e] + s)[1..] == s;
      if e.order.price == price {
        forall i | 0 <= i < |s| ensures s[i].order.price != price {
          assert i > 0 ==> Prior(isBuy, s[0], s[i]);
        }
        LevelOfNothing(s, price);
      }
    } else {
      LevelOfInsert(isBuy, s[1..], e, price);
    }
  }


  lemma LevelSlotsAreSideSlots(s: seq<Entry>, price: uint64)
    ensures forall x :: x in LevelOf(s, price) ==> x in Slots(s)
  {
    forall x | x in LevelOf(s, price) ensures x in Slots(s) {
      var i := LevelMember(s, price, x);
      SlotsAt(s, i);
    }
  }

  /** The price written in the order tells its level. */
  lemma LevelSlotsCarryPrice(cells: Cells, levels: Levels, s: seq<Entry>, gap: set<uint64>, price: uint64)
    requires SideRep(cells, levels, s, gap)
    ensures forall x :: x in LevelOf(s, price) ==> IsLive(cells, x) && At(cells, x).price == price
  {
    forall x | x in LevelOf(s, price) ensures IsLive(cells, x) && At(cells, x).price == price {
      var i := LevelMember(s, price, x);
      assert InCell(cells, s[i]);
    }
  }

  lemma {:induction false} SlotIndex(s: seq<Entry>, slot: nat) returns (i: nat)
    requires slot in Slots(s)
    ensures i < |s| && s[i].slot == slot && s[i] == Find(s, slot)
  {
    i := DeletePosition(s, slot);
  }

  // ---------- Frames ----------

  lemma SideFrame(cells: Cells, cells': Cells, levels: Levels, s: seq<Entry>, gap: set<uint64>)
    requires SideRep(cells, levels, s, gap) && |cells'| == |cells|
    requires forall x :: x in Slots(s) && x < |cells| ==> cells'[x] == cells[x]
    ensures SideRep(cells', levels, s, gap)
  {
    forall i: nat | i < |s| ensures InCell(cells', s[i]) {
      assert InCell(cells, s[i]);
      SlotsAt(s, i);
    }
    forall p | p in levels ensures LevelRep(cells', levels, s, p) {
      assert LevelRep(cells, levels, s, p);
      LevelSlotsAreSideSlots(s, p);
      ListFrame(cells, cells', levels[p], LevelOf(s, p));
    }
  }

  lemma LinksKeepCell(cells: Cells, cells': Cells, touched: seq<nat>, e: Entry)
    requires LinksOnly(cells, cells', touched) && InCell(cells, e)
    ensures InCell(cells', e)
  {
  }

  /** Changing links inside one level leaves the other levels of the side alone. */
  lemma OtherLevel(cells: Cells, cells': Cells, levels: Levels, s: seq<Entry>, gap: set<uint64>,
                   touched: seq<nat>, p: uint64, q: uint64)
    requires SideRep(cells, levels, s, gap) && LinksOnly(cells, cells', touched)
    requires forall x :: x in touched ==> IsLive(cells, x) && At(cells, x).price == p
    requires q in levels && q != p
    ensures ListRep(cells', levels[q], LevelOf(s, q))
  {
    assert LevelRep(cells, levels, s, q);
    LevelSlotsCarryPrice(cells, levels, s, gap, q);
    var items := LevelOf(s, q);
    forall i | 0 <= i < |items| ensures items[i] !in touched {
      assert items[i] in items;
    }
    ListFrame(cells, cells', levels[q], items);
  }

  // ---------- Shrinking the front order ----------

  lemma WritingSizeKeepsList(cells: Cells, h: Header, items: seq<nat>, x: nat, size: uint32)
    requires ListRep(cells, h, items) && IsLive(cells, x)
    ensures ListRep(Put(cells, x, At(cells, x).(size := size)), h, items)
  {
    var cells' := Put(cells, x, At(cells, x).(size := size));
    forall i: nat | i < |items| ensures Linked(cells', items, i) {
      assert Linked(cells, items, i);
    }
  }

  lemma SlotsDiffer(s: seq<Entry>, i: nat, j: nat)
    requires Distinct(Slots(s)) && i < j < |s|
    ensures s[i].slot != s[j].slot
  {
    SlotsAt(s, i);
    SlotsAt(s, j);
  }

  lemma ShrinkingKeepsLevels(s: seq<Entry>, m: nat, p: uint64)
    requires s != [] && m <= s[0].order.size
    ensures LevelOf([Shrunk(s[0], m)] + s[1..], p) == LevelOf(s, p)
  {
    assert ([Shrunk(s[0], m)] + s[1..])[1..] == s[1..];
  }

  lemma FrontInCell(cells: Cells, s: seq<Entry>, x: nat, m: nat)
    requires Distinct(Slots(s)) && s != [] && m <= s[0].order.size && x == s[0].slot
    requires forall i: nat :: i < |s| ==> InCell(cells, s[i])
    ensures IsLive(cells, x)
    ensures var t := [Shrunk(s[0], m)] + s[1..];
      forall i: nat :: i < |t| ==> InCell(Put(cells, x, At(cells, x).(size := s[0].order.size - m)), t[i])
  {
    assert InCell(cells, s[0]);
    var t := [Shrunk(s[0], m)] + s[1..];
    forall i: nat | i < |t| ensures InCell(Put(cells, x, At(cells, x).(size := s[0].order.size - m)), t[i]) {
      if i > 0 {
        SlotsDiffer(s, 0, i);
        assert InCell(cells, s[i]) && t[i] == s[i];
      }
    }
  }

  /** Writing a smaller size into the front order is what draining part of it means. */
  lemma ShrinkFront(cells: Cells, levels: Levels, s: seq<Entry>, gap: set<uint64>, m: nat)
    requires SideRep(cells, levels, s, gap) && Distinct(Slots(s)) && s != [] && m <= s[0].order.size
    ensures IsLive(cells, s[0].slot) && At(cells, s[0].slot).size == s[0].order.size
    ensures var x := s[0].slot;
      SideRep(Put(cells, x, At(cells, x).(size := s[0].order.size - m)), levels, [Shrunk(s[0], m)] + s[1..], gap)
  {
    var x := s[0].slot;
    assert InCell(cells, s[0]);
    var cells' := Put(cells, x, At(cells, x).(size := s[0].order.size - m));
    var t := [Shrunk(s[0], m)] + s[1..];
    FrontInCell(cells, s, x, m);
    hide InCell, ListRep, Slots, LevelOf, Distinct, Put;
    forall i: nat | i < |t| ensures t[i].order.price in levels {
      assert InCell(cells, s[i]) && t[i].order.price == s[i].order.price;
    }
    forall p | p in levels ensures LevelRep(cells', levels, t, p) && LevelOf(t, p) == LevelOf(s, p) {
      assert LevelRep(cells, levels, s, p);
      ShrinkingKeepsLevels(s, m, p);
      WritingSizeKeepsList(cells, levels[p], LevelOf(s, p), x, s[0].order.size - m);
    }
  }

  // ---------- Leaving a level ----------

  lemma RemoveFromLevel(cells: Cells, levels: Levels, s: seq<Entry>, gap: set<uint64>, x: nat)
    requires SideRep(cells, levels, s, gap) && x in Slots(s)
    ensures var p := Find(s, x).order.price;
      && IsLive(cells, x) && NeighboursLive(cells, x) && At(cells, x).price == p
      && p in levels && levels[p].size > 0
      && var (cells', h) := RemoveStep(cells, levels[p], x);
         && ListRep(cells', h, LevelOf(Delete(s, x), p))
         && LinksOnly(cells, cells', LevelOf(s, p))
         && At(cells', x).listNode == DETACHED
  {
    var j := SlotIndex(s, x);
    var p := s[j].order.price;
    assert InCell(cells, s[j]);
    var k := OwnLevelOfDelete(s, x);
    assert LevelRep(cells, levels, s, p);
    RemoveKeepsList(cells, levels[p], LevelOf(s, p), k);
  }

  lemma SideAfterRemoval(cells: Cells, cells': Cells, levels: Levels, h: Header, s: seq<Entry>, gap: set<uint64>, x: nat)
    requires SideRep(cells, levels, s, gap) && x in Slots(s)
    requires var p := Find(s, x).order.price;
      LinksOnly(cells, cells', LevelOf(s, p)) && ListRep(cells', h, LevelOf(Delete(s, x), p))
    ensures var p := Find(s, x).order.price;
      SideRep(cells', levels[p := h], Delete(s, x), gap + {p})
  {
    var p, t := Find(s, x).order.price, Delete(s, x);
    var d := DeletePosition(s, x);
    forall i: nat | i < |t| ensures InCell(cells', t[i]) && t[i].order.price in levels[p := h] {
      var i' := if i < d then i else i + 1;
      assert t[i] == s[i'] && InCell(cells, s[i']);
      LinksKeepCell(cells, cells', LevelOf(s, p), s[i']);
    }
    LevelSlotsCarryPrice(cells, levels, s, gap, p);
    forall q | q in levels[p := h]
      ensures LevelRep(cells', levels[p := h], t, q) && (q !in gap + {p} ==> LevelOf(t, q) != [])
    {
      if q != p {
        OtherLevelOfDelete(s, x, q);
        OtherLevel(cells, cells', levels, s, gap, LevelOf(s, p), p, q);
      }
    }
  }

  /** Unlinking a resting order from the level of its price takes it out of the side. */
  lemma RemoveFromSide(cells: Cells, levels: Levels, s: seq<Entry>, gap: set<uint64>, x: nat)
    requires SideRep(cells, levels, s, gap) && x in Slots(s)
    ensures var p := Find(s, x).order.price;
      && IsLive(cells, x) && NeighboursLive(cells, x) && At(cells, x).price == p
      && p in levels && levels[p].size > 0
      && var (cells', h) := RemoveStep(cells, levels[p], x);
         && SideRep(cells', levels[p := h], Delete(s, x), gap + {p})
         && h.size == |LevelOf(Delete(s, x), p)|
         && LinksOnly(cells, cells', Slots(s))
         && At(cells', x).listNode == DETACHED
  {
    RemoveFromLevel(cells, levels, s, gap, x);
    var p := Find(s, x).order.price;
    var (cells', h) := RemoveStep(cells, levels[p], x);
    SideAfterRemoval(cells, cells', levels, h, s, gap, x);
    LevelSlotsAreSideSlots(s, p);
    WiderTouch(cells, cells', LevelOf(s, p), Slots(s));
  }

  lemma WiderTouch(cells: Cells, cells': Cells, touched: seq<nat>, wider: seq<nat>)
    requires LinksOnly(cells, cells', touched) && forall x :: x in touched ==> x in wider
    ensures LinksOnly(cells, cells', wider)
  {
  }

  // ---------- Joining a level ----------

  lemma AppendToLevel(cells: Cells, levels: Levels, s: seq<Entry>, e: Entry)
    requires SideRep(cells, levels, s, {}) && InCell(cells, e) && e.slot !in Slots(s)
    ensures var p := e.order.price;
      var h := if p in levels then levels[p] else EMPTY;
      && ListRep(cells, h, LevelOf(s, p))
      && e.slot !in LevelOf(s, p)
      && (h.head.Some? ==> h.tail.Some? && IsLive(cells, h.tail.value))
      && var (cells', h') := AppendStep(cells, h, e.slot);
         ListRep(cells', h', LevelOf(s, p) + [e.slot]) && LinksOnly(cells, cells', LevelOf(s, p) + [e.slot])
  {
    var p := e.order.price;
    var h := if p in levels then levels[p] else EMPTY;
    if p in levels {
      assert LevelRep(cells, levels, s, p);
    } else {
      forall i: nat | i < |s| ensures s[i].order.price != p {
        assert InCell(cells, s[i]);
      }
      LevelOfNothing(s, p);
    }
    LevelSlotsAreSideSlots(s, p);
    AppendKeepsList(cells, h, LevelOf(s, p), e.slot);
  }

  lemma SideAfterAppend(cells: Cells, cells': Cells, levels: Levels, h: Header, s: seq<Entry>, isBuy: bool, e: Entry)
    requires SideRep(cells, levels, s, {}) && Sorted(isBuy, s) && InCell(cells, e)
    requires var items := LevelOf(s, e.order.price) + [e.slot];
      ListRep(cells', h, items) && LinksOnly(cells, cells', items)
    ensures SideRep(cells', levels[e.order.price := h], Insert(isBuy, s, e), {})
  {
    var p, t := e.order.price, Insert(isBuy, s, e);
    var k := InsertPosition(isBuy, s, e);
    var items := LevelOf(s, p) + [e.slot];
    forall i: nat | i < |t| ensures InCell(cells', t[i]) && t[i].order.price in levels[p := h] {
      if i != k {
        var i' := if i < k then i else i - 1;
        assert t[i] == s[i'] && InCell(cells, s[i']);
      }
      LinksKeepCell(cells, cells', items, t[i]);
    }
    forall q | q in levels[p := h] ensures LevelRep(cells', levels[p := h], t, q) && LevelOf(t, q) != [] {
      LevelAfterAppend(cells, cells', levels, h, s, isBuy, e, q);
    }
  }

  lemma LevelAfterAppend(cells: Cells, cells': Cells, levels: Levels, h: Header, s: seq<Entry>, isBuy: bool, e: Entry, q: uint64)
    requires SideRep(cells, levels, s, {}) && Sorted(isBuy, s) && InCell(cells, e)
    requires var items := LevelOf(s, e.order.price) + [e.slot];
      ListRep(cells', h, items) && LinksOnly(cells, cells', items)
    requires q in levels[e.order.price := h]
    ensures ListRep(cells', levels[e.order.price := h][q], LevelOf(Insert(isBuy, s, e), q))
    ensures LevelOf(Insert(isBuy, s, e), q) != []
  {
    var p := e.order.price;
    LevelOfInsert(isBuy, s, e, q);
    if q != p {
      LevelSlotsCarryPrice(cells, levels, s, {}, p);
      OtherLevel(cells, cells', levels, s, {}, LevelOf(s, p) + [e.slot], p, q);
    }
  }

  /** Linking an order to the end of the level of its price (a new, empty level if there was none)
      puts it into the side. */
  lemma AppendToSide(cells: Cells, levels: Levels, s: seq<Entry>, isBuy: bool, e: Entry)
    requires SideRep(cells, levels, s, {}) && Sorted(isBuy, s) && InCell(cells, e) && e.slot !in Slots(s)
    ensures var p := e.order.price;
      var h := if p in levels then levels[p] else EMPTY;
      && ListRep(cells, h, LevelOf(s, p))
      && e.slot !in LevelOf(s, p)
      && (h.head.Some? ==> h.tail.Some? && IsLive(cells, h.tail.value))
      && var (cells', h') := AppendStep(cells, h, e.slot);
         && SideRep(cells', levels[p := h'], Insert(isBuy, s, e), {})
         && LinksOnly(cells, cells', Slots(s) + [e.slot])
  {
    var p := e.order.price;
    AppendToLevel(cells, levels, s, e);
    var (cells', h') := AppendStep(cells, if p in levels then levels[p] else EMPTY, e.slot);
    SideAfterAppend(cells, cells', levels, h', s, isBuy, e);
    LevelSlotsAreSideSlots(s, p);
    WiderTouch(cells, cells', LevelOf(s, p) + [e.slot], Slots(s) + [e.slot]);
  }
}

/** The two sides are mirror images: turning prices upside down and swapping the sides turns every run
    into a run with the same replies, so that what is proved of bids holds of asks. */
module BookMirror {
  import opened Basics
  import opened Orders
  import opened PriceTime
  import opened Books
  import opened BookInvariants
  import opened BookSteps
  import opened BookRuns

  function MirrorPrice(p: uint64): uint64 {
    TWO_TO_THE_64 - 1 - p
  }

  function MirrorOrder(o: Order): Order {
    o.(price := MirrorPrice(o.price), isBuySide := !o.isBuySide)
  }

  function MirrorEntry(e: Entry): Entry {
    e.(order := MirrorOrder(e.order))
  }

  function MirrorTrade(t: Trade): Trade {
    t.(price := MirrorPrice(t.price), makerIsBuy := !t.makerIsBuy)
  }

  function MirrorSide(s: seq<Entry>): seq<Entry> {
    if s == [] then [] else [MirrorEntry(s[0])] + MirrorSide(s[1..])
  }

  function MirrorTrades(trades: seq<Trade>): seq<Trade> {
    seq(|trades|, i requires 0 <= i < |trades| => MirrorTrade(trades[i]))
  }

  function MirrorReach(reach: Reach): Reach {
    match reach
    case Everything => Everything
    case AtMost(limit) => AtLeast(MirrorPrice(limit))
    case AtLeast(limit) => AtMost(MirrorPrice(limit))
    case Only(p) => Only(MirrorPrice(p))
  }

  function MirrorBook(b: Book): Book {
    Book(
      MirrorSide(b.asks), MirrorSide(b.bids),
      map x | x in b.idle :: MirrorEntry(b.idle[x]),
      b.free,
      seq(|b.accepted|, i requires 0 <= i < |b.accepted| => MirrorOrder(b.accepted[i])),
      MirrorTrades(b.trades),
      seq(|b.cancelled|, i requires 0 <= i < |b.cancelled| => b.cancelled[i].(isBuy := !b.cancelled[i].isBuy)))
  }

  function MirrorOp(op: Op): Op {
    match op
    case Add(order) => Add(MirrorOrder(order))
    case Cancel(target) => op
    case Match(isBuy, price, size, orderType, start) => Match(!isBuy, MirrorPrice(price), size, orderType, start)
  }

  function MirrorOps(ops: seq<Op>): seq<Op> {
    if ops == [] then [] else [MirrorOp(ops[0])] + MirrorOps(ops[1..])
  }

  /** What the mirror shows of one side: the other side, place by place, each order on the side it was
      not, at 2^64 - 1 minus its price, everything else unchanged. */
  ghost predicate Reversed(s: seq<Entry>, t: seq<Entry>) {
    && |t| == |s|
    && forall i :: 0 <= i < |s| ==>
         t[i] == s[i].(order := s[i].order.(
           price := 0xffff_ffff_ffff_ffff - s[i].order.price, isBuySide := !s[i].order.isBuySide))
  }

  lemma {:induction false} MirrorSideIsReversed(s: seq<Entry>)
    ensures Reversed(s, MirrorSide(s))
  {
    if s != [] {
      MirrorSideIsReversed(s[1..]);
    }
  }

  /** The mirror swaps the sides and turns prices upside down, in books and in calls, and does nothing else. */
  lemma MirrorIsReversal(b: Book, ops: seq<Op>)
    ensures var m := MirrorBook(b);
      && Reversed(b.asks, m.bids) && Reversed(b.bids, m.asks) && m.free == b.free
      && m.idle.Keys == b.idle.Keys && (forall x :: x in b.idle ==> Reversed([b.idle[x]], [m.idle[x]]))
      && |m.trades| == |b.trades| && |m.accepted| == |b.accepted| && |m.cancelled| == |b.cancelled|
      && (forall i :: 0 <= i < |b.trades| ==>
            m.trades[i] == b.trades[i].(
              price := 0xffff_ffff_ffff_ffff - b.trades[i].price, makerIsBuy := !b.trades[i].makerIsBuy))
      && (forall i :: 0 <= i < |b.accepted| ==>
            m.accepted[i] == b.accepted[i].(
              price := 0xffff_ffff_ffff_ffff - b.accepted[i].price, isBuySide := !b.accepted[i].isBuySide))
      && (forall i :: 0 <= i < |b.cancelled| ==>
            m.cancelled[i] == b.cancelled[i].(isBuy := !b.cancelled[i].isBuy))
    ensures |MirrorOps(ops)| == |ops|
    ensures forall i :: 0 <= i < |ops| ==> match ops[i]
      case Add(o) =>
        MirrorOps(ops)[i] == Add(o.(price := 0xffff_ffff_ffff_ffff - o.price, isBuySide := !o.isBuySide))
      case Cancel(target) => MirrorOps(ops)[i] == Cancel(target)
      case Match(isBuy, price, size, orderType, start) =>
        MirrorOps(ops)[i] == Match(!isBuy, 0xffff_ffff_ffff_ffff - price, size, orderType, start)
  {
    MirrorSideIsReversed(b.bids);
    MirrorSideIsReversed(b.asks);
    forall i: nat | i < |ops| ensures |MirrorOps(ops)| == |ops| && MirrorOps(ops)[i] == MirrorOp(ops[i]) {
      MirrorOpsAt(ops, i);
    }
    MirrorOpsLength(ops);
  }

  lemma {:induction false} MirrorOpsLength(ops: seq<Op>)
    ensures |MirrorOps(ops)| == |ops|
  {
    if ops != [] {
      MirrorOpsLength(ops[1..]);
    }
  }

  lemma {:induction false} MirrorOpsAt(ops: seq<Op>, i: nat)
    requires i < |ops|
    ensures |MirrorOps(ops)| == |ops| && MirrorOps(ops)[i] == MirrorOp(ops[i])
  {
    MirrorOpsLength(ops);
    if i > 0 {
      MirrorOpsAt(ops[1..], i - 1);
    }
  }

  // ---------- Lists ----------

  lemma {:induction false} MirrorVolume(s: seq<Entry>, reach: Reach)
    ensures Volume(MirrorSide(s), MirrorReach(reach)) == Volume(s, reach)
  {
    if s != [] {
      MirrorVolume(s[1..], reach);
    }
  }

  lemma {:induction false} MirrorSlots(s: seq<Entry>)
    ensures Slots(MirrorSide(s)) == Slots(s)
  {
    if s != [] {
      MirrorSlots(s[1..]);
    }
  }

  lemma {:induction false} MirrorDrain(s: seq<Entry>, n: nat)
    ensures Drain(MirrorSide(s), n) == MirrorSide(Drain(s, n))
    ensures Emptied(MirrorSide(s), n) == Emptied(s, n)
    decreases |s|
  {
    if s == [] || n == 0 {
    } else if n < s[0].order.size {
      assert ([Shrunk(s[0], n)] + s[1..])[1..] == s[1..];
    } else {
      MirrorDrain(s[1..], n - s[0].order.size);
    }
  }

  lemma {:induction false} MirrorTradesOf(taker: Option<nat>, s: seq<Entry>, n: nat)
    ensures TradesOf(taker, MirrorSide(s), n) == MirrorTrades(TradesOf(taker, s, n))
    decreases |s|
  {
    if s != [] && n >= s[0].order.size && n != 0 {
      MirrorTradesOf(taker, s[1..], n - s[0].order.size);
      var t, rest := TradeWith(taker, s[0], s[0].order.size), TradesOf(taker, s[1..], n - s[0].order.size);
      assert MirrorTrades([t] + rest) == [MirrorTrade(t)] + MirrorTrades(rest);
    }
  }

  lemma {:induction false} MirrorInsert(isBuy: bool, s: seq<Entry>, e: Entry)
    ensures Insert(!isBuy, MirrorSide(s), MirrorEntry(e)) == MirrorSide(Insert(isBuy, s, e))
  {
    if s == [] || BetterPrice(isBuy, e.order.price, s[0].order.price) {
      assert ([e] + s)[1..] == s;
    } else {
      MirrorInsert(isBuy, s[1..], e);
    }
  }

  lemma {:induction false} MirrorDelete(s: seq<Entry>, slot: nat)
    requires slot in Slots(s)
    ensures slot in Slots(MirrorSide(s))
    ensures Find(MirrorSide(s), slot) == MirrorEntry(Find(s, slot))
    ensures Delete(MirrorSide(s), slot) == MirrorSide(Delete(s, slot))
  {
    MirrorSlots(s);
    if s[0].slot != slot {
      MirrorDelete(s[1..], slot);
    }
  }

  lemma {:induction false} MirrorLevel(s: seq<Entry>, price: uint64)
    ensures LevelOf(MirrorSide(s), MirrorPrice(price)) == LevelOf(s, price)
  {
    if s != [] {
      MirrorLevel(s[1..], price);
    }
  }

  // ---------- Operations ----------

  lemma MirrorConsume(b: Book, isBuy: bool, taker: Option<nat>, n: nat)
    ensures Consume(MirrorBook(b), !isBuy, taker, n) == MirrorBook(Consume(b, isBuy, taker, n))
  {
    hide Drain, Emptied, TradesOf, MirrorSide;
    var s := SideOf(b, isBuy);
    MirrorDrain(s, n);
    MirrorTradesOf(taker, s, n);
    assert MirrorTrades(b.trades + TradesOf(taker, s, n)) == MirrorTrades(b.trades) + MirrorTrades(TradesOf(taker, s, n));
  }

  lemma MirrorAmount(b: Book, isBuy: bool, price: uint64, size: nat, orderType: OrderType, start: nat)
    ensures MatchAmount(MirrorBook(b), !isBuy, MirrorPrice(price), size, orderType, start)
            == MatchAmount(b, isBuy, price, size, orderType, start)
  {
    MirrorVolume(SideOf(b, !isBuy), ReachOf(isBuy, orderType, price));
  }

  /** Matching an ask is the mirror image of matching a bid. */
  lemma MirrorMatch(b: Book, isBuy: bool, price: uint64, size: nat, orderType: OrderType, start: nat, taker: Option<nat>)
    ensures var (b', total) := MatchOrder(b, isBuy, price, size, orderType, start, taker);
      MatchOrder(MirrorBook(b), !isBuy, MirrorPrice(price), size, orderType, start, taker) == (MirrorBook(b'), total)
  {
    hide Consume, MirrorBook, MatchAmount;
    MirrorAmount(b, isBuy, price, size, orderType, start);
    MirrorConsume(b, !isBuy, taker, MatchAmount(b, isBuy, price, size, orderType, start));
  }

  lemma MirrorAdmit(b: Book, order: Order)
    requires b.free != []
    ensures Admit(MirrorBook(b), MirrorOrder(order)) == MirrorBook(Admit(b, order))
  {
    var b1, b2 := Admit(MirrorBook(b), MirrorOrder(order)), MirrorBook(Admit(b, order));
    assert b1.accepted == b2.accepted;
    assert b1.idle == b2.idle;
  }

  lemma MirrorSettle(b: Book, slot: nat, matched: nat)
    requires slot in b.idle && matched <= b.idle[slot].order.size
    ensures Settle(MirrorBook(b), slot, matched) == MirrorBook(Settle(b, slot, matched))
  {
    var e := Shrunk(b.idle[slot], matched);
    var isBuy := e.order.isBuySide;
    MirrorInsert(isBuy, SideOf(b, isBuy), e);
    var b1, b2 := Settle(MirrorBook(b), slot, matched), MirrorBook(Settle(b, slot, matched));
    assert b1.idle == b2.idle;
  }

  lemma MirrorAdd(b: Book, order: Order)
    ensures var (b', slot) := AddOrder(b, order);
      AddOrder(MirrorBook(b), MirrorOrder(order)) == (MirrorBook(b'), slot)
  {
    if b.free != [] {
      hide Consume, Admit, Settle;
      var n := MatchedOnArrival(b, order);
      MirrorAmount(b, order.isBuySide, order.price, order.size, order.orderType, 0);
      AddOrderPlaces(b, order);
      MirrorAdmit(b, order);
      MirrorConsume(Admit(b, order), !order.isBuySide, Some(|b.accepted|), n);
      AdmittedIsIdle(b, order, n);
      MirrorSettle(Consume(Admit(b, order), !order.isBuySide, Some(|b.accepted|), n), b.free[0], n);
    }
  }

  lemma AdmittedIsIdle(b: Book, order: Order, n: nat)
    requires b.free != []
    ensures var b' := Consume(Admit(b, order), !order.isBuySide, Some(|b.accepted|), n);
      b.free[0] in b'.idle && b'.idle[b.free[0]].order == order
  {
  }

  lemma MirrorResting(b: Book, slot: nat)
    ensures Resting(MirrorBook(b), slot) <==> Resting(b, slot)
    ensures Cancellable(MirrorBook(b), slot) <==> Cancellable(b, slot)
  {
    MirrorSlots(b.bids);
    MirrorSlots(b.asks);
    if slot in b.idle {
      var o := b.idle[slot].order;
      MirrorLevel(SideOf(b, o.isBuySide), o.price);
    }
  }

  lemma MirrorCancel(b: Book, capacity: nat, slot: nat)
    requires SlotsOk(b, capacity) && Cancellable(b, slot)
    ensures Cancellable(MirrorBook(b), slot)
    ensures CancelOrder(MirrorBook(b), slot) == MirrorBook(CancelOrder(b, slot))
  {
    hide MirrorSide, Delete, Find, Slots;
    MirrorResting(b, slot);
    MirrorSlots(b.bids);
    MirrorSlots(b.asks);
    SlotIsInOnePlace(b, capacity, slot);
    if Resting(b, slot) {
      var isBuy := slot in Slots(b.bids);
      MirrorDelete(SideOf(b, isBuy), slot);
    }
    var b1, b2 := CancelOrder(MirrorBook(b), slot), MirrorBook(CancelOrder(b, slot));
    assert b1.idle == b2.idle;
    assert b1.cancelled == b2.cancelled;
  }

  lemma MirrorStep(b: Book, capacity: nat, op: Op)
    requires Invariant(b, capacity) && Enabled(b, op)
    ensures Enabled(MirrorBook(b), MirrorOp(op))
    ensures var (b', reply) := Step(b, op);
      Step(MirrorBook(b), MirrorOp(op)) == (MirrorBook(b'), reply)
  {
    hide MirrorBook, AddOrder, CancelOrder, MatchOrder, Cancellable;
    match op
    case Add(order) => MirrorAdd(b, order);
    case Cancel(target) =>
      if target.Some? {
        MirrorCancel(b, capacity, target.value);
      }
    case Match(isBuy, price, size, orderType, start) =>
      MirrorMatch(b, isBuy, price, size, orderType, start, None);
  }

  /** The mirror image of a run is a run: same replies, mirrored book. */
  lemma {:induction false} MirrorRun(b: Book, capacity: nat, ops: seq<Op>)
    requires Invariant(b, capacity) && Runs(b, ops)
    ensures Runs(MirrorBook(b), MirrorOps(ops))
    ensures After(MirrorBook(b), MirrorOps(ops)) == MirrorBook(After(b, ops))
    ensures Replies(MirrorBook(b), MirrorOps(ops)) == Replies(b, ops)
    decreases |ops|
  {
    hide MirrorBook, Invariant, Step, Enabled, MirrorOp;
    if ops != [] {
      MirrorStep(b, capacity, ops[0]);
      StepKeepsInvariant(b, capacity, ops[0]);
      MirrorRun(Step(b, ops[0]).0, capacity, ops[1..]);
      assert MirrorOps(ops)[1..] == MirrorOps(ops[1..]) && MirrorOps(ops)[0] == MirrorOp(ops[0]);
    }
  }

  /** Every run from the empty book has its mirror image. */
  lemma MirrorRunFromEmpty(capacity: nat, ops: seq<Op>)
    requires Runs(Opened(capacity), ops)
    ensures Runs(Opened(capacity), MirrorOps(ops))
    ensures After(Opened(capacity), MirrorOps(ops)) == MirrorBook(After(Opened(capacity), ops))
    ensures Replies(Opened(capacity), MirrorOps(ops)) == Replies(Opened(capacity), ops)
  {
    OpenedIsValid(capacity);
    MirrorRun(Opened(capacity), capacity, ops);
    assert MirrorBook(Opened(capacity)) == Opened(capacity);
  }
}

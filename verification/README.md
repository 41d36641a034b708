# Limit order book: model and proofs

A Dafny model of the exchange's matching core, from the memory pool up to the order book, and proofs
about it. Three layers are kept apart:

- **The program.** Classes with the source's own fields and loops: `MemPool` (free list threaded through
  the storage of dead objects), `MemPoolSeparateFreeStructure` (links in a field of their own),
  `IntrusiveQueue` (doubly linked, links inside the orders, many queues over one store) and `OrderBook`
  (a pool and two ordered maps from price to queue object). An address of an order is the number of its
  slot; null is `None`. Sizes are 32-bit and prices 64-bit integer ranges, so every assignment carries a
  proof that nothing wraps.
- **The memory as a value.** `PoolImage`, `Header` and `BookImage` are snapshots of what the classes hold;
  every method is proved to produce exactly the snapshot a step function describes.
- **The book as a value.** `Book` holds, for each side, the list of resting orders sorted by price and
  arrival, the orders handed back to their owners, the free slots, and a history (orders accepted, trades,
  cancellations). Matching is one sentence here: take `min(wanted, volume within reach)` units off the front
  of the opposite list (`MatchOrder`). `Rep` says how a book lies in memory, and it is exact in both
  directions: the book determines the memory (`BookDeterminesMemory`) and the memory determines the book
  (`MemoryDeterminesBook`).

`OrderBook`'s public methods each equal the corresponding operation on `Book`, and the corresponding step of a
run, and keep `Valid()`; the theorems about runs are then proved of `Book`. What each step means is stated again
in `CallMeaning` without the functions that define it: prices compared with the limit, sizes added up, orders
entering and leaving lists. A run is any sequence of adds, cancellations and direct calls of the two
public match functions, for any mix of Limit and Market orders.

Two results differ from what one might expect of the program:

- `cancelOrder` is documented to remove an order and release its slot (`project/order_book.hpp`, lines 22-26).
  The code unlinks whenever a level exists at the order's price, so releasing a *filled* order while others rest
  at its price on its side destroys their level. `CancelIsSafeIff` proves exactly when the call is safe, and
  `FilledOrderMayNotBeCancellable` gives a run that reaches an unsafe one. `CancelOrder` states the exact writes
  for every live order and the intended meaning for the safe ones.
- The depth shown for a level is summed in 32 bits. It is the level's volume exactly when that volume fits
  (`LevelDepth`); `ShownDepthMayWrap` is a run of two orders shown as depth zero.

## Files

`Basics` (integers, options); `FreeStack`, `MemPool`, `SeparatePool`, `PoolEquivalence` (allocators); `Orders`,
`IntrusiveQueue`, `QueueRuns` (orders and queues); `PriceTime` (sorted lists and draining them); `Books`,
`BookInvariants`, `BookSteps`, `CallMeaning`, `BookRuns`, `BookMirror` (the book as a value, its invariant, each
call in plain list facts, runs, symmetry);
`BookRep`, `BookRepSteps`, `MatchSteps`, `BookMemory` (memory against book); `OrderBook` (the class).

## Model

| member | source | states |
|---|---|---|
| MemPools.MemPool.constructor | project/mem_pool.hpp:12-22 | the loop builds the chain 0, 1, ..., n-1, sentinel; every slot is flagged free |
| MemPools.MemPool.Allocate | project/mem_pool.hpp:31-41 | null exactly when the free list is empty; otherwise the top of the free list, which held no object, and nothing else changes |
| MemPools.MemPool.Deallocate | project/mem_pool.hpp:48-59 | a live slot goes on top of the free list, its storage becomes the link, and nothing else changes |
| MemPools.ChainIsAcyclic | project/mem_pool.hpp:70-89 | following links from the first free index never returns to a slot and stays inside the store |
| MemPools.FreeListIsExact | project/mem_pool.hpp:31-89 | the chain visits exactly the slots flagged free, which are exactly those without an object, once each; it is empty exactly when all slots are live |
| MemPools.AllocateKeepsRep | project/mem_pool.hpp:31-41 | allocation reads a link only from a dead slot and leaves an exact free list without its first element |
| MemPools.DeallocateKeepsRep | project/mem_pool.hpp:48-59 | deallocation leaves an exact free list with the slot in front |
| MemPools.PoolRepFrame | project/mem_pool.hpp:75-84 | writing to live objects in place is invisible to the free list |
| SeparatePools.MemPoolSeparateFreeStructure.constructor | project/mem_pool_separate_free_structure.hpp:12-21 | the loop builds the same chain in the separate link fields |
| SeparatePools.MemPoolSeparateFreeStructure.Allocate | project/mem_pool_separate_free_structure.hpp:23-32 | null exactly when the free list is empty; otherwise its top, the block keeping a stale link |
| SeparatePools.MemPoolSeparateFreeStructure.Deallocate | project/mem_pool_separate_free_structure.hpp:34-43 | a live block goes on top of the free list |
| SeparatePools.AllocateKeepsRep | project/mem_pool_separate_free_structure.hpp:23-32 | stale links of live blocks never enter the chain |
| FreeStacks.RunStaysExact | project/mem_pool.hpp:31-59 | over any run of legal calls every slot is free or alive, never both and never twice |
| PoolEquivalence.OverlayRun | project/mem_pool.hpp:31-59 | any legal run of the pool with overlaid links replies as a LIFO stack of free slots does and ends in its state; what those replies are is in OverlayAllocation and OverlayDeallocation |
| PoolEquivalence.SeparateRun | project/mem_pool_separate_free_structure.hpp:23-43 | the same for the pool with separate links |
| PoolEquivalence.AllocatorsAgree | project/mem_pool_separate_free_structure.hpp:12-43 | for every capacity and every legal sequence of calls both allocators return the same slots or null at every step and end with the same objects in the same slots |
| PoolEquivalence.OneReplyEach | project/mem_pool.hpp:31-41 | a run of either pool replies once for each allocation |
| PoolEquivalence.OverlayAllocation | project/mem_pool.hpp:31-41 | after any legal run of a new pool an allocation replies null if and only if all n slots are alive, changing nothing; otherwise a slot below n that was not alive and now holds the value, every other object staying |
| PoolEquivalence.OverlayDeallocation | project/mem_pool.hpp:48-59 | exactly what is alive may be deallocated; its object goes, no other, and the allocation right after replies with that slot |
| PoolEquivalence.SeparateAllocation | project/mem_pool_separate_free_structure.hpp:23-32 | the same answer from the pool with separate links |
| PoolEquivalence.SeparateDeallocation | project/mem_pool_separate_free_structure.hpp:34-43 | the same for its deallocation |
| Orders.DecreaseSize | project/order.hpp:30-38 | removes and returns the lesser of the amount and the size, in place, changing nothing else |
| IntrusiveQueues.IntrusiveQueue.Append | project/intrusive_queue.hpp:27-40 | the exact writes; the links then spell out the old list with the item at the end, and only links of its items changed |
| IntrusiveQueues.IntrusiveQueue.Remove | project/intrusive_queue.hpp:42-58 | the exact writes for any live item, in the queue or not |
| IntrusiveQueues.IntrusiveQueue.Pop | project/intrusive_queue.hpp:17-25 | null on an empty queue, otherwise the first item, the links then spelling out the rest |
| IntrusiveQueues.ListIsAcyclic | project/intrusive_queue.hpp:10-13 | no item stands twice in a well-formed queue |
| IntrusiveQueues.AppendKeepsList | project/intrusive_queue.hpp:27-40 | the writes of append produce a well-formed list with the item at the end |
| IntrusiveQueues.RemoveKeepsList | project/intrusive_queue.hpp:42-58 | the writes of remove delete the item from any position, keep head, tail, both link directions and the count right, and detach the item |
| QueueRuns.Run | project/intrusive_queue.hpp:17-58 | after any legal sequence of appends, pops and removals the links are a well-formed queue of the list of the run, and only links of the items involved were written |
| QueueRuns.RunExtends | project/intrusive_queue.hpp:17-58 | a call may follow a run exactly when it pops, appends a live item outside the queue or removes a member; it then acts on links and header as the class method does, and the list gains the item at its end, loses its first item, which is the answer, or loses the item removed |
| QueueRuns.FirstInFirstOut | project/intrusive_queue.hpp:17-40 | in every run of appends and pops, the items popped followed by those left are the initial items followed by those appended, in order |
| QueueRuns.PopsTakeThePrefix | project/intrusive_queue.hpp:17-40 | if no pop meets an empty queue, k pops return the first k of the initial and appended items and the links spell out the others |
| QueueRuns.SurvivorsKeepTheirOrder | project/intrusive_queue.hpp:42-58 | with removals anywhere, the links spell out a subsequence of the initial and appended items in their original order |
| QueueRuns.EveryItemIsSomewhere | project/intrusive_queue.hpp:17-58 | every item that was there or was appended is still in the queue, was popped or was removed, as often as it went in; each pop answers once |
| QueueRuns.OtherQueueUntouched | project/intrusive_queue.hpp:65-72 | a queue over the same store whose items were not involved is still the same queue |
| OrderBooks.OrderBook.constructor | project/order_book.cpp:12-13 | an empty valid book with every slot free |
| OrderBooks.OrderBook.AddOrder | project/order_book.cpp:15-46 | slot taken first, null and no change if there is none; then it sweeps the other side (a Limit order only at or inside its price, a Market order at any), and the remainder rests or the filled order stays with its owner; validity is kept and the call is the `Add` step of a run |
| OrderBooks.OrderBook.CancelOrder | project/order_book.cpp:48-62 | null is ignored; the exact writes for every live order; for a cancellable order the result is the book without it, valid, its slot on top of the free list, and the call is the `Cancel` step of a run |
| OrderBooks.OrderBook.MatchBidOrder | project/order_book.cpp:64-80 | the loop over ask levels, for any starting total, does what the one-sentence match on the sorted list does: same total, levels, sizes, free list and trades; a Limit bid takes all it wants or all asks at or below its price and leaves the others alone, a Market bid all it wants or all asks; it terminates, and for no taker it is the `Match` step of a run |
| OrderBooks.OrderBook.MatchAskOrder | project/order_book.cpp:82-98 | the same for bid levels from the highest price down, a Limit ask taking bids at or above its price |
| OrderBooks.OrderBook.MatchAtLevel | project/order_book.cpp:100-117 | the inner loop takes from the level's orders in turn; it stops with the level empty or the quantity reached, and terminates |
| OrderBooks.OrderBook.MatchFront | project/order_book.cpp:101-116 | one turn of that loop: the head gives the lesser of its size and what is wanted, and if used up is unlinked and freed |
| OrderBooks.OrderBook.BidLevelFor | project/order_book.cpp:40 | indexing the map of bid levels finds the level at a price or makes an empty one, other levels unchanged |
| OrderBooks.OrderBook.LevelDepth | project/order_book.cpp:132-135 | the walk visits each order of the level once in order and ends; the result is the level's volume modulo 2^32, and equals the volume if and only if that is below 2^32 |
| OrderBooks.SumSizes | project/order_book.cpp:141-144 | the walk along `next` from a head adds up the sizes of the list, modulo 2^32 |
| PriceTime.DrainTradesWithPrefix | project/order_book.cpp:100-117 | a match trades with a prefix of the price-time list, one trade an order, all but the last for a whole order |
| PriceTime.DrainLeavesTheRest | project/order_book.cpp:100-117 | the used-up prefix is gone, at most one order is partly filled and is now first, every other order keeps its size and place, and exactly the used-up orders' slots are freed |
| PriceTime.DrainedIsTraded | project/order_book.cpp:103-107 | traded amounts add up to what the side loses |
| PriceTime.DrainWithinReach | project/order_book.cpp:69-69 | a match within reach trades only at acceptable prices and takes its amount from within reach |
| PriceTime.SweepsCompose | project/order_book.cpp:64-98 | two successive fills add up to, and leave the list and emptied slots of, one fill of the sum |
| PriceTime.InsertSorts | project/order_book.cpp:40 | joining the end of the level of its price is the place price-time priority gives a newcomer |
| CallMeaning.MatchSweeps | project/order_book.cpp:64-117 | by comparing prices with the limit: every trade of a Limit order is at or inside it, every order beyond it keeps slot, arrival and size, and the quantity is the lesser of what is wanted and the sum of the sizes at or inside it; for a Market order the sum of all sizes, whatever its price; used-up slots return to the free list, the last on top |
| CallMeaning.WhatMayBeCalled | project/order_book.cpp:48-62 | the calls a run may make: any add or match, and cancelling null, an order resting on either side, or one with its owner at whose price none of its side rests |
| CallMeaning.StepAdds | project/order_book.cpp:15-46 | an add in a run: refused without a free slot; otherwise the top free slot is the reply, the order sweeps as above, what is left takes its place behind all at its price or better and before all worse, and an order with nothing left stays with its owner; nothing else changes |
| CallMeaning.StepMatches | project/order_book.cpp:64-98 | a direct match in a run: the reply is its start plus what the opposite side lost, which is the fill above; the own side and the owners' orders do not change |
| CallMeaning.StepCancels | project/order_book.cpp:48-62 | a cancellation in a run: the order is in neither side nor with its owner, its slot is on top of the free list, its open size is recorded, every other order keeps its place |
| BookSteps.LeftoverMeansNothingInReach | project/order_book.cpp:36-40 | a quantity is left over only if the other side is empty, for a Market order, or has no price at or inside its own, for a Limit order |
| BookSteps.AddKeepsUncrossed | project/order_book.cpp:32-40 | adding any order leaves the best bid below the best ask |
| BookSteps.AddKeepsInvariant | project/order_book.cpp:15-46 | adding keeps the whole invariant: sides sorted, sizes positive, uncrossed, every slot in exactly one place, trades proper, every account balanced |
| BookSteps.CancelKeepsInvariant | project/order_book.cpp:48-62 | cancelling a cancellable order keeps it |
| BookSteps.MatchKeepsInvariant | project/order_book.cpp:64-98 | direct matches keep it |
| BookRuns.RunKeepsInvariant | project/order_book.hpp:22-36 | every run of the public operations keeps it |
| BookRuns.RunExtends | project/order_book.hpp:22-36 | a call may follow a run exactly when the book reached allows it; it makes its step from there and its reply is added to the replies |
| BookRuns.NeverCrossed | project/order_book.cpp:64-98 | in every reachable state every bid price is below every ask price |
| BookRuns.SlotAccounting | project/order_book.cpp:17-21 | in every reachable state free slots, resting orders and orders with their owners add up to the pool; an order is refused exactly when none is free, and then nothing changes; a returned slot was free |
| BookRuns.RestingOrderAddsUp | project/order_book.cpp:34-107 | a resting order's original size is its open size plus its trades as maker and taker plus what was cancelled of it |
| BookRuns.GoneOrderAddsUp | project/order_book.cpp:34-114 | an order that no longer rests was traded or cancelled to the last unit |
| BookRuns.RunConserves | project/order_book.cpp:15-117 | over any run of adds and cancellations: accepted = resting + cancelled + twice the traded volume, and on each side accepted = resting + cancelled + the same traded volume |
| BookRuns.ArrivalOrder | project/order_book.cpp:40 | in every reachable state orders at one price stand in order of arrival |
| BookRuns.PriorityIsKept | project/order_book.cpp:55-117 | of two orders resting before and after a run, the one that came first still does |
| BookRuns.NoTradeThrough | project/order_book.cpp:64-117 | each trade of an incoming order is with the order that then has the best price and the earliest arrival at it; prices never improve along the sweep, and those of a Limit order never pass its limit |
| BookRuns.ExactFill | project/order_book.cpp:64-107 | the total returned is the start plus the lesser of what is wanted and the sizes at any price (Market), at or below the price (Limit bid) or at or above it (Limit ask); starting from k only shifts the total |
| BookRuns.MatchesCompose | project/order_book.cpp:64-98 | matching a and then c leaves the levels, sizes and free list, and the totals, of matching a + c |
| BookRuns.RestThenCancel | project/order_book.cpp:15-62 | an order that rests without matching and is cancelled at once leaves sides, owners' orders and free list as they were |
| BookRuns.ShownDepthMayWrap | project/order_book.cpp:141-144 | a run of two orders whose level is shown with depth zero |
| BookMirror.MirrorMatch | project/order_book.cpp:82-98 | matching an ask is matching a bid in the mirror (price p to 2^64 - 1 - p, sides swapped) |
| BookMirror.MirrorRunFromEmpty | project/order_book.cpp:15-117 | the mirror image of every run is a run with the same replies and the mirrored book |
| BookMirror.MirrorIsReversal | project/order_book.cpp:82-98 | what the mirror does to books and calls: sides swapped, each price p turned into 2^64 - 1 - p, everything else kept |
| BookRepSteps.TakePart | project/order_book.cpp:103-107 | writing a smaller size into the head order is a partial fill of the front of the list; everything else in memory still represents the book |
| BookRepSteps.TakeWhole | project/order_book.cpp:103-115 | zeroing the head order, unlinking it and freeing its slot is taking the front of the list whole |
| BookRepSteps.RestRep | project/order_book.cpp:40 | linking an order to the end of the level of its price, new or old, is resting it |
| BookRepSteps.CancelRestingRep | project/order_book.cpp:52-61 | unlinking a resting order, erasing its level if empty and freeing the slot is cancelling it |
| BookRepSteps.UnlinkAndFree | project/order_book.cpp:54-61 | the writes at one price leave the other levels of the side, their links and counts, as they were |
| BookMemory.BookDeterminesMemory | project/order_book.hpp:46-49 | books with the same orders in the same places lie in memory in exactly one way: links, headers, counts, flags and free list |
| BookMemory.MemoryDeterminesBook | project/order_book.hpp:46-49 | one memory represents one book: the same free list, the same orders in the same slots and priority order, the same orders with their owners |
| BookMemory.RoundTripInMemory | project/order_book.cpp:15-62 | resting and cancelling at once restores every level, link, count and the exact free-list chain |
| BookMemory.SplitInMemory | project/order_book.cpp:64-98 | splitting a direct match in two leaves the very memory the single match leaves |
| BookMemory.UnsafeCancelBreaks | project/order_book.cpp:54-61 | after cancelling a live order that does not rest while others rest at its price on its side, memory represents no valid book |
| BookMemory.UnsafeCancelStrandsLevel | project/order_book.cpp:54-61 | the level such a cancellation leaves: erased if it held one order, otherwise without head or tail and with a count one too small; the slot is freed and no other order is written |
| BookMemory.CancelIsSafeIff | project/order_book.cpp:48-62 | cancelling a live order leaves a valid book if and only if it rests or no order rests at its price on its side |
| BookMemory.FilledOrderMayNotBeCancellable | project/order_book.cpp:36-45 | a run of three orders after which the filled one, still alive with its owner, may not be cancelled |

## Left out

- Formatting and logging: `Order::toString`, the text layout and mid price of `OrderBook::toString`, and every log line; only the depth-summing walk is modelled.
- The carried `symbol` field: it never influences behaviour.
- Raw memory: casts, alignment, placement construction, destructors. A slot holds either a link or an object, and reading the wrong one is a proof obligation. The 64-bit width of slot counts is not modelled.
- The inside of the ordered map: finding, inserting, erasing, and the least and greatest key are taken as given.
- Reading an order after its slot was freed: contracts speak of live slots only.
- Duplicate order ids: the code does not check them and neither does the model; an order is identified by its slot.
- Constructing a pool with no slots: the program aborts, so the constructors require a positive size.
- Programs around the book (`project/entrypoint.cpp`, the random generator, benchmarks, `common/`, `examples/`): drivers, timing and randomness.

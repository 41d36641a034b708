/** The two allocators cannot be told apart: both refine the same LIFO stack of free slots. */
module PoolEquivalence {
  import opened Basics
  import opened FreeStacks
  import M = MemPools
  import S = SeparatePools

  ghost predicate OverlayRefines<T>(p: M.PoolImage<T>, s: FreeStack<T>) {
    && M.PoolRep(p.cells, p.next, s.free)
    && s.live == M.Objects(p.cells)
  }

  ghost predicate SeparateRefines<T>(p: S.SeparateImage<T>, s: FreeStack<T>) {
    && S.SeparateRep(p.blocks, p.next, s.free)
    && s.live == S.Objects(p.blocks)
  }

  lemma OverlayTake<T>(p: M.PoolImage<T>, s: FreeStack<T>, value: T)
    requires OverlayRefines(p, s)
    ensures p.next < |p.cells| ==> p.cells[p.next].storage.Link?
    ensures OverlayRefines(M.AllocateStep(p, value).0, Take(s, value).0)
    ensures M.AllocateStep(p, value).1 == Take(s, value).1
  {
    M.AllocateKeepsRep(p, s.free, value);
  }

  lemma OverlayGive<T>(p: M.PoolImage<T>, s: FreeStack<T>, slot: nat)
    requires OverlayRefines(p, s) && slot in s.live
    ensures M.IsLive(p.cells, slot)
    ensures OverlayRefines(M.DeallocateStep(p, slot), Give(s, slot))
  {
    M.DeallocateKeepsRep(p, s.free, slot);
  }

  lemma SeparateTake<T>(p: S.SeparateImage<T>, s: FreeStack<T>, value: T)
    requires SeparateRefines(p, s)
    ensures SeparateRefines(S.AllocateStep(p, value).0, Take(s, value).0)
    ensures S.AllocateStep(p, value).1 == Take(s, value).1
  {
    S.AllocateKeepsRep(p, s.free, value);
  }

  lemma SeparateGive<T>(p: S.SeparateImage<T>, s: FreeStack<T>, slot: nat)
    requires SeparateRefines(p, s) && slot in s.live
    ensures S.IsLive(p.blocks, slot)
    ensures SeparateRefines(S.DeallocateStep(p, slot), Give(s, slot))
  {
    S.DeallocateKeepsRep(p, s.free, slot);
  }

  /** A run of the overlaid pool: what it replied, and the state it ends in. */
  ghost function OverlayRun<T>(p: M.PoolImage<T>, s: FreeStack<T>, ops: seq<PoolOp<T>>)
    : (r: (seq<Option<nat>>, M.PoolImage<T>))
    requires OverlayRefines(p, s) && Legal(s, ops)
    ensures r.0 == Replies(s, ops)
    ensures OverlayRefines(r.1, Final(s, ops))
    decreases |ops|
  {
    if ops == [] then ([], p)
    else match ops[0]
      case Allocate(v) =>
        OverlayTake(p, s, v);
        var (q, reply) := M.AllocateStep(p, v);
        var (replies, end) := OverlayRun(q, Take(s, v).0, ops[1..]);
        ([reply] + replies, end)
      case Deallocate(x) =>
        OverlayGive(p, s, x);
        OverlayRun(M.DeallocateStep(p, x), Give(s, x), ops[1..])
  }

  /** A run of the pool with separate links. */
  ghost function SeparateRun<T>(p: S.SeparateImage<T>, s: FreeStack<T>, ops: seq<PoolOp<T>>)
    : (r: (seq<Option<nat>>, S.SeparateImage<T>))
    requires SeparateRefines(p, s) && Legal(s, ops)
    ensures r.0 == Replies(s, ops)
    ensures SeparateRefines(r.1, Final(s, ops))
    decreases |ops|
  {
    if ops == [] then ([], p)
    else match ops[0]
      case Allocate(v) =>
        SeparateTake(p, s, v);
        var (q, reply) := S.AllocateStep(p, v);
        var (replies, end) := SeparateRun(q, Take(s, v).0, ops[1..]);
        ([reply] + replies, end)
      case Deallocate(x) =>
        SeparateGive(p, s, x);
        SeparateRun(S.DeallocateStep(p, x), Give(s, x), ops[1..])
  }

  lemma InitialRefines<T>(n: nat)
    ensures OverlayRefines<T>(M.InitialImage(n), Initial(n))
    ensures SeparateRefines<T>(S.InitialImage(n), Initial(n))
  {
    M.InitialIsRep<T>(n);
    S.InitialIsRep<T>(n);
  }

  /** For every capacity and every legal sequence of calls, the two allocators return the same
      slots (or null) in the same order and end holding the same objects in the same slots,
      each slot being either free or alive. */
  lemma AllocatorsAgree<T>(n: nat, ops: seq<PoolOp<T>>)
    requires n > 0 && Legal(Initial(n), ops)
    ensures OverlayRefines<T>(M.InitialImage(n), Initial(n)) && SeparateRefines<T>(S.InitialImage(n), Initial(n))
    ensures var (r1, p) := OverlayRun(M.InitialImage(n), Initial(n), ops);
      var (r2, q) := SeparateRun(S.InitialImage(n), Initial(n), ops);
      && r1 == r2
      && M.Objects(p.cells) == S.Objects(q.blocks)
      && Exact(Final(Initial(n), ops), n)
  {
    InitialRefines<T>(n);
    RunStaysExact(Initial(n), n, ops);
  }

  // ---------- What the replies are ----------

  function Allocations<T>(ops: seq<PoolOp<T>>): nat {
    if ops == [] then 0
    else (if ops[0].Allocate? then 1 else 0) + Allocations(ops[1..])
  }

  /** One reply for each allocation. */
  lemma {:induction false} OneReplyEach<T>(p: M.PoolImage<T>, q: S.SeparateImage<T>, s: FreeStack<T>, ops: seq<PoolOp<T>>)
    requires OverlayRefines(p, s) && SeparateRefines(q, s) && Legal(s, ops)
    ensures |OverlayRun(p, s, ops).0| == |SeparateRun(q, s, ops).0| == Allocations(ops)
    decreases |ops|
  {
    if ops != [] {
      match ops[0]
      case Allocate(v) =>
        OverlayTake(p, s, v);
        SeparateTake(q, s, v);
        OneReplyEach(M.AllocateStep(p, v).0, S.AllocateStep(q, v).0, Take(s, v).0, ops[1..]);
      case Deallocate(x) =>
        OverlayGive(p, s, x);
        SeparateGive(q, s, x);
        OneReplyEach(M.DeallocateStep(p, x), S.DeallocateStep(q, x), Give(s, x), ops[1..]);
    }
  }

  lemma NextIsLink<T>(p: M.PoolImage<T>, s: FreeStack<T>)
    requires OverlayRefines(p, s)
    ensures p.next < |p.cells| ==> p.cells[p.next].storage.Link?
  {
  }

  /** A run with one call more is the run followed by the writes of that call. */
  lemma {:induction false} OverlayExtends<T>(p: M.PoolImage<T>, s: FreeStack<T>, ops: seq<PoolOp<T>>, op: PoolOp<T>)
    requires OverlayRefines(p, s) && Legal(s, ops + [op])
    ensures Legal(s, ops)
    ensures var (r, q) := OverlayRun(p, s, ops);
      && (q.next < |q.cells| ==> q.cells[q.next].storage.Link?)
      && (op.Deallocate? ==> M.IsLive(q.cells, op.slot))
      && OverlayRun(p, s, ops + [op]) == match op
           case Allocate(v) => (r + [M.AllocateStep(q, v).1], M.AllocateStep(q, v).0)
           case Deallocate(x) => (r, M.DeallocateStep(q, x))
    decreases |ops|
  {
    hide OverlayRefines, M.AllocateStep, M.DeallocateStep, Take, Give;
    RunExtends(s, ops, op);
    if ops == [] {
      NextIsLink(p, s);
      assert [op][1..] == [] && ops + [op] == [op];
      if op.Allocate? {
        OverlayTake(p, s, op.value);
        var (q, reply) := M.AllocateStep(p, op.value);
        assert OverlayRun(q, Take(s, op.value).0, []) == ([], q);
        assert [reply] + [] == [] + [reply];
      } else {
        OverlayGive(p, s, op.slot);
        assert OverlayRun(M.DeallocateStep(p, op.slot), Give(s, op.slot), []).1 == M.DeallocateStep(p, op.slot);
      }
    } else {
      assert (ops + [op])[1..] == ops[1..] + [op];
      match ops[0]
      case Allocate(v) =>
        OverlayTake(p, s, v);
        var (p', reply) := M.AllocateStep(p, v);
        OverlayExtends(p', Take(s, v).0, ops[1..], op);
        if op.Allocate? {
          var (r, q) := OverlayRun(p', Take(s, v).0, ops[1..]);
          var last := M.AllocateStep(q, op.value).1;
          assert [reply] + (r + [last]) == ([reply] + r) + [last];
        }
      case Deallocate(x) =>
        OverlayGive(p, s, x);
        OverlayExtends(M.DeallocateStep(p, x), Give(s, x), ops[1..], op);
    }
  }

  lemma {:induction false} SeparateExtends<T>(p: S.SeparateImage<T>, s: FreeStack<T>, ops: seq<PoolOp<T>>, op: PoolOp<T>)
    requires SeparateRefines(p, s) && Legal(s, ops + [op])
    ensures Legal(s, ops)
    ensures var (r, q) := SeparateRun(p, s, ops);
      && (op.Deallocate? ==> S.IsLive(q.blocks, op.slot))
      && SeparateRun(p, s, ops + [op]) == match op
           case Allocate(v) => (r + [S.AllocateStep(q, v).1], S.AllocateStep(q, v).0)
           case Deallocate(x) => (r, S.DeallocateStep(q, x))
    decreases |ops|
  {
    hide SeparateRefines, S.AllocateStep, S.DeallocateStep, Take, Give;
    RunExtends(s, ops, op);
    if ops == [] {
      assert [op][1..] == [] && ops + [op] == [op];
      if op.Allocate? {
        SeparateTake(p, s, op.value);
        var (q, reply) := S.AllocateStep(p, op.value);
        assert SeparateRun(q, Take(s, op.value).0, []) == ([], q);
        assert [reply] + [] == [] + [reply];
      } else {
        SeparateGive(p, s, op.slot);
        assert SeparateRun(S.DeallocateStep(p, op.slot), Give(s, op.slot), []).1 == S.DeallocateStep(p, op.slot);
      }
    } else {
      assert (ops + [op])[1..] == ops[1..] + [op];
      match ops[0]
      case Allocate(v) =>
        SeparateTake(p, s, v);
        var (p', reply) := S.AllocateStep(p, v);
        SeparateExtends(p', Take(s, v).0, ops[1..], op);
        if op.Allocate? {
          var (r, q) := SeparateRun(p', Take(s, v).0, ops[1..]);
          var last := S.AllocateStep(q, op.value).1;
          assert [reply] + (r + [last]) == ([reply] + r) + [last];
        }
      case Deallocate(x) =>
        SeparateGive(p, s, x);
        SeparateExtends(S.DeallocateStep(p, x), Give(s, x), ops[1..], op);
    }
  }

  /** What one more allocation answers, given the objects alive before and after: null exactly when all
      `n` slots are alive, and then nothing changes; otherwise a slot of the pool that was not alive and
      now holds the value, every other object staying where it was. */
  ghost predicate Answers<T>(n: nat, before: map<nat, T>, value: T, reply: Option<nat>, after: map<nat, T>) {
    && (reply == None <==> forall x: nat :: x < n ==> x in before)
    && (reply == None ==> after == before)
    && (reply.Some? ==> reply.value < n && reply.value !in before && after == before[reply.value := value])
  }

  lemma TakeAnswers<T>(s: FreeStack<T>, n: nat, value: T)
    requires Exact(s, n)
    ensures Answers(n, s.live, value, Take(s, value).1, Take(s, value).0.live)
  {
    if s.free != [] {
      assert s.free[0] in s.free;
    }
  }

  /** After any legal run on a new pool, an allocation adds one reply, and it is the right one. */
  lemma OverlayAllocation<T>(n: nat, ops: seq<PoolOp<T>>, value: T)
    requires Legal(Initial(n), ops)
    ensures OverlayRefines<T>(M.InitialImage(n), Initial(n)) && Legal(Initial(n), ops + [Allocate(value)])
    ensures var (r, p) := OverlayRun(M.InitialImage(n), Initial(n), ops);
      var (r', p') := OverlayRun(M.InitialImage(n), Initial(n), ops + [Allocate(value)]);
      && |r'| == |r| + 1 && r' == r + [r'[|r|]]
      && Answers(n, M.Objects(p.cells), value, r'[|r|], M.Objects(p'.cells))
  {
    var s := Initial<T>(n);
    InitialRefines<T>(n);
    RunExtends(s, ops, Allocate(value));
    OverlayExtends(M.InitialImage(n), s, ops, Allocate(value));
    RunStaysExact(s, n, ops);
    TakeAnswers(Final(s, ops), n, value);
    OverlayTake(OverlayRun(M.InitialImage(n), s, ops).1, Final(s, ops), value);
  }

  /** Just what is alive may be deallocated; that takes the object away and adds no reply, and the next
      allocation returns that very slot. */
  lemma OverlayDeallocation<T>(n: nat, ops: seq<PoolOp<T>>, slot: nat, value: T)
    requires Legal(Initial(n), ops)
    ensures OverlayRefines<T>(M.InitialImage(n), Initial(n))
    ensures var (r, p) := OverlayRun(M.InitialImage(n), Initial(n), ops);
      && (Legal(Initial(n), ops + [Deallocate(slot)]) <==> slot in M.Objects(p.cells))
      && (slot in M.Objects(p.cells) ==>
            var (r', p') := OverlayRun(M.InitialImage(n), Initial(n), ops + [Deallocate(slot)]);
            && r' == r && M.Objects(p'.cells) == M.Objects(p.cells) - {slot}
            && Legal(Initial(n), ops + [Deallocate(slot)] + [Allocate(value)])
            && OverlayRun(M.InitialImage(n), Initial(n), ops + [Deallocate(slot)] + [Allocate(value)]).0 == r + [Some(slot)])
  {
    var s := Initial<T>(n);
    InitialRefines<T>(n);
    RunExtends(s, ops, Deallocate(slot));
    if slot in Final(s, ops).live {
      var more := ops + [Deallocate(slot)];
      OverlayExtends(M.InitialImage(n), s, ops, Deallocate(slot));
      RunExtends(s, more, Allocate(value));
      OverlayExtends(M.InitialImage(n), s, more, Allocate(value));
    }
  }

  lemma SeparateAllocation<T>(n: nat, ops: seq<PoolOp<T>>, value: T)
    requires Legal(Initial(n), ops)
    ensures SeparateRefines<T>(S.InitialImage(n), Initial(n)) && Legal(Initial(n), ops + [Allocate(value)])
    ensures var (r, p) := SeparateRun(S.InitialImage(n), Initial(n), ops);
      var (r', p') := SeparateRun(S.InitialImage(n), Initial(n), ops + [Allocate(value)]);
      && |r'| == |r| + 1 && r' == r + [r'[|r|]]
      && Answers(n, S.Objects(p.blocks), value, r'[|r|], S.Objects(p'.blocks))
  {
    var s := Initial<T>(n);
    InitialRefines<T>(n);
    RunExtends(s, ops, Allocate(value));
    SeparateExtends(S.InitialImage(n), s, ops, Allocate(value));
    RunStaysExact(s, n, ops);
    TakeAnswers(Final(s, ops), n, value);
    SeparateTake(SeparateRun(S.InitialImage(n), s, ops).1, Final(s, ops), value);
  }

  lemma SeparateDeallocation<T>(n: nat, ops: seq<PoolOp<T>>, slot: nat, value: T)
    requires Legal(Initial(n), ops)
    ensures SeparateRefines<T>(S.InitialImage(n), Initial(n))
    ensures var (r, p) := SeparateRun(S.InitialImage(n), Initial(n), ops);
      && (Legal(Initial(n), ops + [Deallocate(slot)]) <==> slot in S.Objects(p.blocks))
      && (slot in S.Objects(p.blocks) ==>
            var (r', p') := SeparateRun(S.InitialImage(n), Initial(n), ops + [Deallocate(slot)]);
            && r' == r && S.Objects(p'.blocks) == S.Objects(p.blocks) - {slot}
            && Legal(Initial(n), ops + [Deallocate(slot)] + [Allocate(value)])
            && SeparateRun(S.InitialImage(n), Initial(n), ops + [Deallocate(slot)] + [Allocate(value)]).0 == r + [Some(slot)])
  {
    var s := Initial<T>(n);
    InitialRefines<T>(n);
    RunExtends(s, ops, Deallocate(slot));
    if slot in Final(s, ops).live {
      var more := ops + [Deallocate(slot)];
      SeparateExtends(S.InitialImage(n), s, ops, Deallocate(slot));
      RunExtends(s, more, Allocate(value));
      SeparateExtends(S.InitialImage(n), s, more, Allocate(value));
    }
  }
}

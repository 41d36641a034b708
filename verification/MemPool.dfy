/** The allocator whose free list is threaded through the storage of the dead objects. */
module MemPools {
  import opened Basics
  import opened FreeStacks

  /** The bytes of a slot, read either as a free-list link or as an object. */
  datatype Storage<T> = Link(next: nat) | Object(value: T)

  datatype Element<T> = Element(isFree: bool, storage: Storage<T>)

  /** The whole state of a pool as a value. */
  datatype PoolImage<T> = PoolImage(cells: seq<Element<T>>, next: nat)

  predicate IsLive<T>(cells: seq<Element<T>>, slot: nat) {
    slot < |cells| && cells[slot].storage.Object?
  }

  /** Following links from `from` visits exactly `free`, in that order, then meets the sentinel. */
  ghost predicate Chain<T>(cells: seq<Element<T>>, from: nat, free: seq<nat>)
    decreases |free|
  {
    if free == [] then from == |cells|
    else
      && from == free[0] < |cells|
      && cells[from].storage.Link?
      && Chain(cells, cells[from].storage.next, free[1..])
  }

  /** The free chain is `free`, and the slots flagged free are exactly those on it. */
  ghost predicate PoolRep<T>(cells: seq<Element<T>>, next: nat, free: seq<nat>) {
    && Chain(cells, next, free)
    && (forall i: nat :: i < |cells| ==> (cells[i].isFree <==> i in free))
    && (forall i: nat :: i < |cells| ==> (cells[i].isFree <==> cells[i].storage.Link?))
  }

  lemma {:induction false} ChainIsFunctional<T>(cells: seq<Element<T>>, from: nat, s: seq<nat>, t: seq<nat>)
    requires Chain(cells, from, s) && Chain(cells, from, t)
    ensures s == t
    decreases |s|
  {
    if s != [] && t != [] {
      ChainIsFunctional(cells, cells[from].storage.next, s[1..], t[1..]);
    }
  }

  lemma {:induction false} ChainSuffix<T>(cells: seq<Element<T>>, from: nat, free: seq<nat>, i: nat)
    requires Chain(cells, from, free) && i < |free|
    ensures free[i] < |cells| && cells[free[i]].storage.Link?
    ensures Chain(cells, free[i], free[i..])
    decreases |free|
  {
    if i > 0 {
      ChainSuffix(cells, cells[from].storage.next, free[1..], i - 1);
      assert free[1..][i - 1..] == free[i..];
    }
  }

  /** The chain never returns to a slot: two visits would be followed by the same remainder. */
  lemma ChainIsAcyclic<T>(cells: seq<Element<T>>, from: nat, free: seq<nat>)
    requires Chain(cells, from, free)
    ensures Distinct(free)
    ensures forall x :: x in free ==> x < |cells|
  {
    forall i, j | 0 <= i < j < |free| ensures free[i] != free[j] {
      ChainSuffix(cells, from, free, i);
      ChainSuffix(cells, from, free, j);
      if free[i] == free[j] {
        ChainIsFunctional(cells, free[i], free[i..], free[j..]);
      }
    }
    forall i | 0 <= i < |free| ensures free[i] < |cells| {
      ChainSuffix(cells, from, free, i);
    }
  }

  /** The free list is exact: it holds the slots flagged free, each once, and is empty exactly when every
      slot holds an object. */
  lemma FreeListIsExact<T>(cells: seq<Element<T>>, next: nat, free: seq<nat>)
    requires PoolRep(cells, next, free)
    ensures Distinct(free)
    ensures forall x: nat :: x in free <==> x < |cells| && cells[x].isFree
    ensures forall x: nat :: x in free <==> x < |cells| && !IsLive(cells, x)
    ensures free == [] <==> forall x: nat :: x < |cells| ==> IsLive(cells, x)
  {
    ChainIsAcyclic(cells, next, free);
    if free != [] {
      assert free[0] in free && !IsLive(cells, free[0]);
    }
  }

  /** Only the cells on the chain matter to it. */
  lemma {:induction false} ChainFrame<T>(cells: seq<Element<T>>, cells': seq<Element<T>>, from: nat, free: seq<nat>)
    requires Chain(cells, from, free) && |cells| == |cells'|
    requires forall x :: x in free && x < |cells| ==> cells[x] == cells'[x]
    ensures Chain(cells', from, free)
    decreases |free|
  {
    if free != [] {
      assert free[0] in free;
      forall x | x in free[1..] ensures x in free { }
      ChainFrame(cells, cells', cells[from].storage.next, free[1..]);
    }
  }

  /** Writing to live slots, as the queues and the matching loops do, is invisible to the pool. */
  lemma PoolRepFrame<T>(cells: seq<Element<T>>, cells': seq<Element<T>>, next: nat, free: seq<nat>)
    requires PoolRep(cells, next, free) && |cells| == |cells'|
    requires forall i: nat :: i < |cells| && IsLive(cells, i) ==> IsLive(cells', i) && !cells'[i].isFree
    requires forall i: nat :: i < |cells| && !IsLive(cells, i) ==> cells'[i] == cells[i]
    ensures PoolRep(cells', next, free)
  {
    ChainFrame(cells, cells', next, free);
  }

  /** Each slot flagged free and linked to the next one; the last link is the sentinel. */
  function InitialImage<T>(n: nat): PoolImage<T> {
    PoolImage(seq(n, (i: nat) => Element(true, Link(i + 1))), 0)
  }

  function AllocateStep<T>(p: PoolImage<T>, value: T): (PoolImage<T>, Option<nat>)
    requires p.next < |p.cells| ==> p.cells[p.next].storage.Link?
  {
    if p.next >= |p.cells| then (p, None)
    else (PoolImage(p.cells[p.next := Element(false, Object(value))], p.cells[p.next].storage.next), Some(p.next))
  }

  function DeallocateStep<T>(p: PoolImage<T>, slot: nat): PoolImage<T>
    requires IsLive(p.cells, slot)
  {
    PoolImage(p.cells[slot := Element(true, Link(p.next))], slot)
  }

  lemma AllocateKeepsRep<T>(p: PoolImage<T>, free: seq<nat>, value: T)
    requires PoolRep(p.cells, p.next, free)
    ensures p.next < |p.cells| <==> free != []
    ensures p.next < |p.cells| ==> p.cells[p.next].storage.Link? && p.next == free[0]
    ensures free != [] ==>
      var q := AllocateStep(p, value).0;
      PoolRep(q.cells, q.next, free[1..])
  {
    if free != [] {
      ChainIsAcyclic(p.cells, p.next, free);
      var q := AllocateStep(p, value).0;
      assert free == [free[0]] + free[1..];
      forall x | x in free[1..] && x < |p.cells| ensures q.cells[x] == p.cells[x] { }
      ChainFrame(p.cells, q.cells, q.next, free[1..]);
    }
  }

  lemma DeallocateKeepsRep<T>(p: PoolImage<T>, free: seq<nat>, slot: nat)
    requires PoolRep(p.cells, p.next, free) && IsLive(p.cells, slot)
    ensures var q := DeallocateStep(p, slot);
      PoolRep(q.cells, q.next, [slot] + free)
  {
    var q := DeallocateStep(p, slot);
    ChainIsAcyclic(p.cells, p.next, free);
    ChainFrame(p.cells, q.cells, p.next, free);
    assert ([slot] + free)[1..] == free;
  }

  /** The objects held by a pool, by slot. */
  ghost function Objects<T>(cells: seq<Element<T>>): map<nat, T> {
    map i: nat | i < |cells| && cells[i].storage.Object? :: cells[i].storage.value
  }

  class MemPool<T> {
    const store: array<Element<T>>
    var nextFree: nat
    ghost var free: seq<nat>

    ghost predicate Valid()
      reads this, store
    {
      PoolRep(store[..], nextFree, free)
    }

    ghost function Image(): PoolImage<T>
      reads this, store
    {
      PoolImage(store[..], nextFree)
    }

    constructor (numElems: nat)
      requires numElems > 0
      ensures Valid() && fresh(store) && store.Length == numElems
      ensures Image() == InitialImage(numElems) && free == Iota(numElems)
    {
      store := new Element<T>[numElems](_ => Element(true, Link(0)));
      nextFree := 0;
      free := Iota(numElems);
      new;
      for i := 0 to numElems
        invariant nextFree == 0 && free == Iota(numElems)
        invariant forall k :: 0 <= k < i ==> store[k] == Element(true, Link(k + 1))
        invariant forall k :: i <= k < numElems ==> store[k] == Element(true, Link(0))
      {
        store[i] := Element(true, Link(i + 1));
      }
      InitialIsRep<T>(numElems);
      assert store[..] == InitialImage<T>(numElems).cells;
    }

    method Allocate(value: T) returns (slot: Option<nat>)
      requires Valid()
      modifies this, store
      ensures Valid()
      ensures (Image(), slot) == AllocateStep(old(Image()), value)
      ensures slot == None <==> old(free) == []
      ensures slot == None ==> free == old(free)
      ensures slot.Some? ==> slot.value == old(free)[0] && free == old(free)[1..]
      ensures slot.Some? ==> !old(IsLive(store[..], slot.value)) && IsLive(store[..], slot.value)
    {
      AllocateKeepsRep(Image(), free, value);
      if nextFree >= store.Length {
        return None;
      }
      slot := Some(nextFree);
      nextFree := store[nextFree].storage.next;
      store[slot.value] := Element(false, Object(value));
      free := free[1..];
      assert store[..] == old(store[..])[slot.value := Element(false, Object(value))];
    }

    method Deallocate(slot: nat)
      requires Valid() && IsLive(store[..], slot)
      modifies this, store
      ensures Valid()
      ensures Image() == DeallocateStep(old(Image()), slot)
      ensures free == [slot] + old(free)
    {
      DeallocateKeepsRep(Image(), free, slot);
      store[slot] := Element(true, Link(nextFree));
      nextFree := slot;
      free := [slot] + free;
      assert store[..] == old(store[..])[slot := Element(true, Link(old(nextFree)))];
    }
  }

  /** The chain the constructor builds: each link leads to the next slot, the last to the sentinel. */
  lemma {:induction false} InitialChain<T>(cells: seq<Element<T>>, k: nat)
    requires k <= |cells|
    requires forall i: nat :: i < |cells| ==> cells[i] == Element(true, Link(i + 1))
    ensures Chain(cells, k, Iota(|cells|)[k..])
    decreases |cells| - k
  {
    if k < |cells| {
      InitialChain(cells, k + 1);
      assert Iota(|cells|)[k..][1..] == Iota(|cells|)[k + 1..];
    }
  }

  lemma InitialIsRep<T>(n: nat)
    ensures PoolRep(InitialImage<T>(n).cells, 0, Iota(n))
  {
    InitialChain(InitialImage<T>(n).cells, 0);
  }
}

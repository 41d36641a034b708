/** The second allocator: the free link has a field of its own, and a live block keeps a stale one. */
module SeparatePools {
  import opened Basics

  /** `storage` is None while no object has been constructed in the block. */
  datatype Block<T> = Block(storage: Option<T>, nextFree: nat)

  datatype SeparateImage<T> = SeparateImage(blocks: seq<Block<T>>, next: nat)

  predicate IsLive<T>(blocks: seq<Block<T>>, slot: nat) {
    slot < |blocks| && blocks[slot].storage.Some?
  }

  /** Like the chain of the other pool, but links are read from every block, dead or alive. */
  ghost predicate Chain<T>(blocks: seq<Block<T>>, from: nat, free: seq<nat>)
    decreases |free|
  {
    if free == [] then from == |blocks|
    else from == free[0] < |blocks| && Chain(blocks, blocks[from].nextFree, free[1..])
  }

  /** The chain is `free`, and the blocks without an object are exactly those on it. */
  ghost predicate SeparateRep<T>(blocks: seq<Block<T>>, next: nat, free: seq<nat>) {
    && Chain(blocks, next, free)
    && Distinct(free)
    && (forall i: nat :: i < |blocks| ==> (blocks[i].storage.None? <==> i in free))
  }

  lemma {:induction false} ChainFrame<T>(blocks: seq<Block<T>>, blocks': seq<Block<T>>, from: nat, free: seq<nat>)
    requires Chain(blocks, from, free) && |blocks| == |blocks'|
    requires forall x :: x in free && x < |blocks| ==> blocks[x].nextFree == blocks'[x].nextFree
    ensures Chain(blocks', from, free)
    decreases |free|
  {
    if free != [] {
      assert free[0] in free;
      forall x | x in free[1..] ensures x in free { }
      ChainFrame(blocks, blocks', blocks[from].nextFree, free[1..]);
    }
  }

  function InitialImage<T>(n: nat): SeparateImage<T> {
    SeparateImage(seq(n, (i: nat) => Block(None, i + 1)), 0)
  }

  function AllocateStep<T>(p: SeparateImage<T>, value: T): (SeparateImage<T>, Option<nat>) {
    if p.next >= |p.blocks| then (p, None)
    else
      var block := p.blocks[p.next];
      (SeparateImage(p.blocks[p.next := block.(storage := Some(value))], block.nextFree), Some(p.next))
  }

  function DeallocateStep<T>(p: SeparateImage<T>, slot: nat): SeparateImage<T>
    requires IsLive(p.blocks, slot)
  {
    SeparateImage(p.blocks[slot := Block(None, p.next)], slot)
  }

  lemma AllocateKeepsRep<T>(p: SeparateImage<T>, free: seq<nat>, value: T)
    requires SeparateRep(p.blocks, p.next, free)
    ensures p.next < |p.blocks| <==> free != []
    ensures free != [] ==>
      var q := AllocateStep(p, value).0;
      p.next == free[0] && SeparateRep(q.blocks, q.next, free[1..])
  {
    if free != [] {
      var q := AllocateStep(p, value).0;
      assert free == [free[0]] + free[1..];
      ChainFrame(p.blocks, q.blocks, q.next, free[1..]);
    }
  }

  lemma DeallocateKeepsRep<T>(p: SeparateImage<T>, free: seq<nat>, slot: nat)
    requires SeparateRep(p.blocks, p.next, free) && IsLive(p.blocks, slot)
    ensures var q := DeallocateStep(p, slot);
      SeparateRep(q.blocks, q.next, [slot] + free)
  {
    var q := DeallocateStep(p, slot);
    ChainFrame(p.blocks, q.blocks, p.next, free);
    assert ([slot] + free)[1..] == free;
  }

  ghost function Objects<T>(blocks: seq<Block<T>>): map<nat, T> {
    map i: nat | i < |blocks| && blocks[i].storage.Some? :: blocks[i].storage.value
  }

  class MemPoolSeparateFreeStructure<T> {
    const store: array<Block<T>>
    var nextFree: nat
    ghost var free: seq<nat>

    ghost predicate Valid()
      reads this, store
    {
      SeparateRep(store[..], nextFree, free)
    }

    ghost function Image(): SeparateImage<T>
      reads this, store
    {
      SeparateImage(store[..], nextFree)
    }

    constructor (numElems: nat)
      requires numElems > 0
      ensures Valid() && fresh(store) && store.Length == numElems
      ensures Image() == InitialImage(numElems) && free == Iota(numElems)
    {
      store := new Block<T>[numElems](_ => Block(None, 0));
      nextFree := 0;
      free := Iota(numElems);
      new;
      for i := 0 to numElems
        invariant nextFree == 0 && free == Iota(numElems)
        invariant forall k :: 0 <= k < i ==> store[k] == Block(None, k + 1)
        invariant forall k :: i <= k < numElems ==> store[k] == Block(None, 0)
      {
        store[i] := store[i].(nextFree := i + 1);
      }
      InitialIsRep<T>(numElems);
      assert store[..] == InitialImage<T>(numElems).blocks;
    }

    method Allocate(value: T) returns (slot: Option<nat>)
      requires Valid()
      modifies this, store
      ensures Valid()
      ensures (Image(), slot) == AllocateStep(old(Image()), value)
      ensures slot == None <==> old(free) == []
      ensures slot == None ==> free == old(free)
      ensures slot.Some? ==> slot.value == old(free)[0] && free == old(free)[1..]
      ensures slot.Some? ==> !old(IsLive(store[..], slot.value)) && IsLive(store[..], slot.value)
    {
      AllocateKeepsRep(Image(), free, value);
      if nextFree >= store.Length {
        return None;
      }
      slot := Some(nextFree);
      nextFree := store[nextFree].nextFree;
      store[slot.value] := store[slot.value].(storage := Some(value));
      free := free[1..];
      assert store[..] == old(store[..])[slot.value := old(store[nextFree]).(storage := Some(value))];
    }

    method Deallocate(slot: nat)
      requires Valid() && IsLive(store[..], slot)
      modifies this, store
      ensures Valid()
      ensures Image() == DeallocateStep(old(Image()), slot)
      ensures free == [slot] + old(free)
    {
      DeallocateKeepsRep(Image(), free, slot);
      store[slot] := Block(None, nextFree);
      nextFree := slot;
      free := [slot] + free;
      assert store[..] == old(store[..])[slot := Block(None, old(nextFree))];
    }
  }

  lemma {:induction false} InitialChain<T>(blocks: seq<Block<T>>, k: nat)
    requires k <= |blocks|
    requires forall i: nat :: i < |blocks| ==> blocks[i] == Block(None, i + 1)
    ensures Chain(blocks, k, Iota(|blocks|)[k..])
    decreases |blocks| - k
  {
    if k < |blocks| {
      InitialChain(blocks, k + 1);
      assert Iota(|blocks|)[k..][1..] == Iota(|blocks|)[k + 1..];
    }
  }

  lemma InitialIsRep<T>(n: nat)
    ensures SeparateRep(InitialImage<T>(n).blocks, 0, Iota(n))
  {
    InitialChain(InitialImage<T>(n).blocks, 0);
  }
}

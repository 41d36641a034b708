/** The reference both allocators are measured against: a LIFO stack of free slots beside the
    objects that are alive. */
module FreeStacks {
  import opened Basics

  datatype FreeStack<T> = FreeStack(free: seq<nat>, live: map<nat, T>)

  datatype PoolOp<T> = Allocate(value: T) | Deallocate(slot: nat)

  function Initial<T>(n: nat): FreeStack<T> {
    FreeStack(Iota(n), map[])
  }

  /** Taking the top of the stack; an empty stack yields null and changes nothing. */
  function Take<T>(s: FreeStack<T>, value: T): (FreeStack<T>, Option<nat>) {
    if s.free == [] then (s, None)
    else (FreeStack(s.free[1..], s.live[s.free[0] := value]), Some(s.free[0]))
  }

  function Give<T>(s: FreeStack<T>, slot: nat): FreeStack<T> {
    FreeStack([slot] + s.free, s.live - {slot})
  }

  /** A caller may deallocate only what is alive at that moment. */
  ghost predicate Legal<T>(s: FreeStack<T>, ops: seq<PoolOp<T>>)
    decreases |ops|
  {
    if ops == [] then true
    else match ops[0]
      case Allocate(v) => Legal(Take(s, v).0, ops[1..])
      case Deallocate(x) => x in s.live && Legal(Give(s, x), ops[1..])
  }

  /** What a caller sees of a run: the slot (or null) returned by each allocation. */
  ghost function Replies<T>(s: FreeStack<T>, ops: seq<PoolOp<T>>): seq<Option<nat>>
    requires Legal(s, ops)
    decreases |ops|
  {
    if ops == [] then []
    else match ops[0]
      case Allocate(v) => [Take(s, v).1] + Replies(Take(s, v).0, ops[1..])
      case Deallocate(x) => Replies(Give(s, x), ops[1..])
  }

  ghost function Final<T>(s: FreeStack<T>, ops: seq<PoolOp<T>>): FreeStack<T>
    requires Legal(s, ops)
    decreases |ops|
  {
    if ops == [] then s
    else match ops[0]
      case Allocate(v) => Final(Take(s, v).0, ops[1..])
      case Deallocate(x) => Final(Give(s, x), ops[1..])
  }

  /** Every slot is on the stack or alive, never both, never twice. */
  ghost predicate Exact<T>(s: FreeStack<T>, n: nat) {
    && Distinct(s.free)
    && (forall x :: x in s.free ==> x !in s.live)
    && (forall x: nat :: x < n <==> x in s.free || x in s.live)
  }

  lemma {:induction false} RunStaysExact<T>(s: FreeStack<T>, n: nat, ops: seq<PoolOp<T>>)
    requires Exact(s, n) && Legal(s, ops)
    ensures Exact(Final(s, ops), n)
    decreases |ops|
  {
    if ops != [] {
      match ops[0]
      case Allocate(v) =>
        var t := Take(s, v).0;
        forall x: nat ensures x < n <==> x in t.free || x in t.live {
          if s.free != [] {
            assert x in s.free <==> x == s.free[0] || x in s.free[1..];
          }
        }
        RunStaysExact(t, n, ops[1..]);
      case Deallocate(x) =>
        RunStaysExact(Give(s, x), n, ops[1..]);
    }
  }

  /** Runs grow one call at a time: a call may follow a run exactly when it deallocates nothing or
      something alive at that moment, and it acts on the state the run has reached. */
  lemma {:induction false} RunExtends<T>(s: FreeStack<T>, ops: seq<PoolOp<T>>, op: PoolOp<T>)
    ensures Legal(s, ops + [op]) <==> Legal(s, ops) && (op.Deallocate? ==> op.slot in Final(s, ops).live)
    ensures Legal(s, ops + [op]) ==>
      Final(s, ops + [op]) == match op
        case Allocate(v) => Take(Final(s, ops), v).0
        case Deallocate(x) => Give(Final(s, ops), x)
    decreases |ops|
  {
    if ops == [] {
      assert [op][1..] == [] && ops + [op] == [op];
    } else {
      assert (ops + [op])[1..] == ops[1..] + [op];
      match ops[0]
      case Allocate(v) => RunExtends(Take(s, v).0, ops[1..], op);
      case Deallocate(x) => RunExtends(Give(s, x), ops[1..], op);
    }
  }
}

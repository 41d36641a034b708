/** Machine integers and the Option type shared by every other module. */
module Basics {
  const TWO_TO_THE_32: int := 0x1_0000_0000
  const TWO_TO_THE_64: int := 0x1_0000_0000_0000_0000

  /** The widths the program stores sizes and prices in.  Values are plain integers, so every
      assignment to a variable of these types carries a proof that nothing wrapped around. */
  type uint32 = x: int | 0 <= x < TWO_TO_THE_32
  type uint64 = x: int | 0 <= x < TWO_TO_THE_64

  /** A value that may be missing.  Addresses of objects in the pool are slot numbers; null is None. */
  datatype Option<+T> = None | Some(value: T)

  function Min(a: int, b: int): int {
    if a <= b then a else b
  }

  ghost predicate Distinct<T>(s: seq<T>) {
    forall i, j :: 0 <= i < j < |s| ==> s[i] != s[j]
  }

  /** The slot numbers 0, 1, ..., n - 1 in order. */
  function Iota(n: nat): (s: seq<nat>)
    ensures |s| == n && forall i :: 0 <= i < n ==> s[i] == i
    ensures forall i: nat :: i in s <==> i < n
  {
    var s := seq(n, (i: nat) => i);
    assert forall i: nat :: i < n ==> i in s by {
      forall i: nat | i < n ensures i in s {
        assert s[i] == i;
      }
    }
    s
  }

  /** Storing a sum in a 32-bit variable. */
  function Wrap(x: nat): uint32 {
    x % TWO_TO_THE_32
  }

  lemma WrapTwice(x: nat, y: nat)
    ensures Wrap(Wrap(x) + y) == Wrap(x + y)
  {
    var q := x / TWO_TO_THE_32;
    assert x + y == (Wrap(x) + y) + q * TWO_TO_THE_32;
  }
}

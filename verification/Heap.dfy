/** malloc and free. Blocks are numbered and never reused, so a second `Free` of a block
    is a call whose precondition fails. Allocation succeeds. */
module Heaps {

  class Heap {
    var live: set<nat>
    var next: nat

    ghost predicate Valid()
      reads this
    {
      forall b | b in live :: b < next
    }

    constructor ()
      ensures Valid() && live == {}
    {
      live, next := {}, 0;
    }

    method Malloc() returns (b: nat)
      requires Valid()
      modifies this
      ensures Valid() && b !in old(live)
      ensures live == old(live) + {b}
    {
      b := next;
      live, next := live + {b}, next + 1;
    }

    method Free(b: nat)
      requires Valid() && b in live
      modifies this
      ensures Valid()
      ensures live == old(live) - {b}
    {
      live := live - {b};
    }

    /** The old block is released and a larger one takes its place. */
    method Realloc(stale: nat) returns (b: nat)
      requires Valid() && stale in live
      modifies this
      ensures Valid() && b !in old(live)
      ensures live == old(live) - {stale} + {b}
    {
      b := Malloc();
      Free(stale);
    }
  }
}

/** The allocator behind `alloc_mem`, `realloc_mem` and `free_mem`. Every request may fail; a block is
    freed at most once because freeing demands that it is live. */
module Allocation {
  import opened Bytes

  class Heap {
    ghost var live: set<object>
    // how many requests have been refused so far
    ghost var refusals: nat

    constructor ()
      ensures live == {} && refusals == 0
    {
      live, refusals := {}, 0;
    }

    /** An outcome the caller cannot foresee: whether this allocation succeeds. */
    method Granted() returns (ok: bool)
      modifies this`refusals
      ensures refusals == old(refusals) + if ok then 0 else 1
    {
      ok := *;
      if !ok {
        refusals := refusals + 1;
      }
    }

    method Malloc(size: nat) returns (block: array?<byte>)
      modifies this
      ensures block == null ==> live == old(live)
      ensures block != null ==> fresh(block) && block.Length == size && live == old(live) + {block}
      ensures refusals == old(refusals) + if block == null then 1 else 0
    {
      var ok := Granted();
      if !ok {
        return null;
      }
      block := new byte[size];
      live := live + {block};
    }

    /** Enters an object just allocated. */
    ghost method Adopt(block: object)
      requires block !in live
      modifies this`live
      ensures live == old(live) + {block}
    {
      live := live + {block};
    }

    /** On failure the old block stays live and untouched, as `realloc` promises. */
    method Realloc(was: array<byte>, size: nat) returns (block: array?<byte>)
      requires was in live && was.Length <= size
      modifies this
      ensures block == null ==> live == old(live)
      ensures block != null ==> fresh(block) && block.Length == size && live == old(live) - {was} + {block}
      ensures block != null ==> block[..was.Length] == was[..]
      ensures refusals == old(refusals) + if block == null then 1 else 0
    {
      block := Malloc(size);
      if block != null {
        forall i | 0 <= i < was.Length {
          block[i] := was[i];
        }
        Free(was);
      }
    }

    method Free(block: object)
      requires block in live
      modifies this`live
      ensures live == old(live) - {block}
    {
      live := live - {block};
    }
  }
}

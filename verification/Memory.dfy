/** Page sizing and the allocator, after src/memory.c. */
module Memory {
  import opened Bytes

  /** `memcpy` into a buffer filled from the front: the text so far grows by `data`, the rest is untouched. */
  method MemCopy(dest: array<byte>, at: nat, data: Str)
    requires at + |data| <= dest.Length
    modifies dest
    ensures dest[..at + |data|] == old(dest[..at]) + data
    ensures forall k | at + |data| <= k < dest.Length :: dest[k] == old(dest[k])
  {
    forall i | 0 <= i < |data| {
      dest[at + i] := data[i];
    }
  }

  function Max(a: nat, b: nat): nat {
    if a < b then b else a
  }

  /** `start` doubled `k` times. */
  function Doubled(start: nat, k: nat): nat {
    if k == 0 then start else 2 * Doubled(start, k - 1)
  }

  ghost predicate IsDoublingOf(start: nat, size: nat) {
    exists k: nat :: size == Doubled(start, k)
  }

  /** The size a doubling loop that starts at `start` stops at. */
  function DoubleUntil(start: nat, need: nat): nat
    requires start > 0
    decreases need - start
  {
    if start >= need then start else DoubleUntil(2 * start, need)
  }

  method GetPagedSize(systemPage: nat, size: nat) returns (pagedSize: nat)
    requires systemPage > 0
    ensures pagedSize == DoubleUntil(systemPage, size)
  {
    pagedSize := systemPage;
    while pagedSize < size
      invariant pagedSize > 0
      invariant DoubleUntil(pagedSize, size) == DoubleUntil(systemPage, size)
      decreases size - pagedSize
    {
      pagedSize := pagedSize * 2;
    }
  }

  lemma {:induction false} DoubledShift(start: nat, k: nat)
    ensures Doubled(2 * start, k) == Doubled(start, k + 1)
  {
    if k > 0 {
      DoubledShift(start, k - 1);
    }
  }

  lemma {:induction false} DoubledMonotone(start: nat, j: nat, k: nat)
    requires j <= k
    ensures Doubled(start, j) <= Doubled(start, k)
    ensures start > 0 && j < k ==> 2 * Doubled(start, j) <= Doubled(start, k)
  {
    if j < k {
      DoubledMonotone(start, j, k - 1);
    }
  }

  /** The loop's result is a doubling of `start`, is large enough, and is under twice the larger of the two. */
  lemma {:induction false} DoubleUntilSound(start: nat, need: nat) returns (k: nat)
    requires start > 0
    ensures DoubleUntil(start, need) == Doubled(start, k)
    ensures need <= DoubleUntil(start, need)
    ensures DoubleUntil(start, need) == start || DoubleUntil(start, need) < 2 * need
    decreases need - start
  {
    if start >= need {
      k := 0;
    } else {
      var k' := DoubleUntilSound(2 * start, need);
      DoubledShift(start, k');
      k := k' + 1;
    }
  }

  /** Only one doubling of `start` is both large enough and not wasteful, so the loop's result is the least. */
  lemma DoubleUntilUnique(start: nat, need: nat, size: nat)
    requires start > 0
    ensures size == DoubleUntil(start, need)
       <==> IsDoublingOf(start, size) && need <= size && (size == start || size < 2 * need)
    ensures IsDoublingOf(start, size) && need <= size ==> DoubleUntil(start, need) <= size
  {
    var k := DoubleUntilSound(start, need);
    forall j: nat | need <= Doubled(start, j)
      ensures DoubleUntil(start, need) <= Doubled(start, j)
      ensures Doubled(start, j) == start || Doubled(start, j) < 2 * need ==> j == k
    {
      if j < k {
        DoubledMonotone(start, j, k);
        DoubledMonotone(start, 0, j);
      } else if k < j {
        DoubledMonotone(start, k, j);
        DoubledMonotone(start, 0, k);
      }
    }
  }

  /** How many slots of `entrySize` bytes, each with one lock byte, a page holds. */
  function SlotsPerPage(pageSize: nat, entrySize: nat): nat {
    pageSize / (entrySize + 1)
  }

  /** They fit, and one more would not. */
  lemma SlotsFit(pageSize: nat, entrySize: nat)
    ensures SlotsPerPage(pageSize, entrySize) * (entrySize + 1) <= pageSize
    ensures pageSize < (SlotsPerPage(pageSize, entrySize) + 1) * (entrySize + 1)
    ensures SlotsPerPage(pageSize, entrySize) >= 1 <==> entrySize < pageSize
  {
    var d := entrySize + 1;
    assert pageSize == d * (pageSize / d) + pageSize % d;
    if pageSize / d == 0 {
      assert pageSize == pageSize % d;
    }
  }

  /** In the page that `GetPagedSize` chose, slots and lock bytes fit, and there is a slot
      exactly when the entry size is not itself a doubling of the system page. */
  lemma PagesHoldSlots(systemPage: nat, entrySize: nat)
    requires systemPage > 0
    ensures var page := DoubleUntil(systemPage, entrySize);
            && SlotsPerPage(page, entrySize) * (entrySize + 1) <= page
            && (SlotsPerPage(page, entrySize) >= 1 <==> !IsDoublingOf(systemPage, entrySize))
  {
    var page := DoubleUntil(systemPage, entrySize);
    SlotsFit(page, entrySize);
    DoubleUntilUnique(systemPage, entrySize, page);
    DoubleUntilUnique(systemPage, entrySize, entrySize);
  }
}

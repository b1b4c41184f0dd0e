/** The pool of module BuilderPool over the slab cache of module SlabCache: slot j of page i is the pool's slot number
    i * slots + j, the two scans stop at the same slot, and what the pool takes for live is what the lock bytes say. */
module PooledCache {
  import opened Allocation
  import opened Memory
  import opened StringBuilder
  import opened BuilderPool
  import opened SlabCache
  import Slab

  /** The locks of all pages in a row. */
  function Flat(locks: seq<seq<bool>>): seq<bool> {
    if locks == [] then [] else locks[0] + Flat(locks[1..])
  }

  predicate Rows(locks: seq<seq<bool>>, slots: nat) {
    slots > 0 && forall i | 0 <= i < |locks| :: |locks[i]| == slots
  }

  lemma {:induction false} FlatAt(locks: seq<seq<bool>>, slots: nat, i: nat, j: nat)
    requires Rows(locks, slots) && i < |locks| && j < slots
    ensures |Flat(locks)| == |locks| * slots && i * slots + j < |Flat(locks)|
    ensures Flat(locks)[i * slots + j] == locks[i][j]
  {
    if i == 0 {
      FlatLength(locks, slots);
      Slab.ProductOrder(0, |locks|, slots);
    } else {
      FlatAt(locks[1..], slots, i - 1, j);
      FlatLength(locks, slots);
      assert (i - 1) * slots + j == i * slots + j - slots;
    }
  }

  lemma {:induction false} FlatLength(locks: seq<seq<bool>>, slots: nat)
    requires Rows(locks, slots)
    ensures |Flat(locks)| == |locks| * slots
  {
    if locks != [] {
      FlatLength(locks[1..], slots);
    }
  }

  /** Setting one lock sets one bit of the row. */
  lemma {:induction false} FlatSet(locks: seq<seq<bool>>, slots: nat, i: nat, j: nat, value: bool)
    requires Rows(locks, slots) && i < |locks| && j < slots
    ensures i * slots + j < |Flat(locks)|
    ensures Flat(Slab.SetLock(locks, i, j, value)) == Flat(locks)[i * slots + j := value]
  {
    FlatAt(locks, slots, i, j);
    var set1 := Slab.SetLock(locks, i, j, value);
    if i == 0 {
      assert set1[1..] == locks[1..];
    } else {
      FlatSet(locks[1..], slots, i - 1, j, value);
      assert set1[1..] == Slab.SetLock(locks[1..], i - 1, j, value);
      assert (i - 1) * slots + j == i * slots + j - slots;
    }
  }

  lemma {:induction false} FlatSnoc(locks: seq<seq<bool>>, row: seq<bool>)
    ensures Flat(locks + [row]) == Flat(locks) + row
  {
    if locks == [] {
      assert [row][1..] == [];
    } else {
      assert (locks + [row])[1..] == locks[1..] + [row];
      FlatSnoc(locks[1..], row);
    }
  }

  lemma ClearIsFirst(live: seq<bool>, k: nat)
    requires k <= |live| && (k < |live| ==> !live[k]) && forall h | 0 <= h < k :: live[h]
    ensures FirstClear(live) == k
  {
  }

  lemma RowOf(h: nat, i: nat, j: nat, slots: nat)
    requires 0 < slots && h < i * slots + j && j < slots
    ensures h == h / slots * slots + h % slots && h / slots <= i && (h / slots == i ==> h % slots < j)
  {
    if h / slots > i {
      Slab.ProductOrder(i, h / slots, slots);
    }
  }

  lemma Quotient(i: nat, j: nat, slots: nat)
    requires j < slots
    ensures (i * slots + j) / slots == i && (i * slots + j) % slots == j
  {
    Slab.DivideBack(i, slots, j);
  }

  lemma FlatHas(locks: seq<seq<bool>>, slots: nat, h: nat)
    requires Rows(locks, slots) && h < |Flat(locks)|
    ensures |Flat(locks)| == |locks| * slots && h / slots < |locks| && h % slots < slots
    ensures h / slots * slots + h % slots == h
    ensures Flat(locks)[h] == locks[h / slots][h % slots]
  {
    FlatLength(locks, slots);
    RowOf(h, |locks|, 0, slots);
    FlatAt(locks, slots, h / slots, h % slots);
  }

  /** The pool's scan of the row stops where the cache's scan of pages and lock bytes does. */
  lemma ScansAgree(s: Slab.State, i: nat, j: nat)
    requires s.Valid() && s.FirstFree(i, j)
    ensures FirstClear(Flat(s.locks)) == i * s.slots + j < |Flat(s.locks)|
  {
    FlatAt(s.locks, s.slots, i, j);
    forall h | 0 <= h < i * s.slots + j ensures Flat(s.locks)[h] {
      RowOf(h, i, j, s.slots);
      FlatHas(s.locks, s.slots, h);
    }
    ClearIsFirst(Flat(s.locks), i * s.slots + j);
  }

  lemma NoneClear(s: Slab.State)
    requires s.Valid() && s.AllLocked()
    ensures FirstClear(Flat(s.locks)) == |Flat(s.locks)| == |s.locks| * s.slots
  {
    FlatLength(s.locks, s.slots);
    forall h | 0 <= h < |Flat(s.locks)| ensures Flat(s.locks)[h] {
      FlatHas(s.locks, s.slots, h);
    }
    ClearIsFirst(Flat(s.locks), |Flat(s.locks)|);
  }

  /** The pool's number for the slot that an allocation takes. */
  function SlotOf(pages: nat, slots: nat, e: Slab.Event): nat {
    match e
    case Took(i, j) => i * slots + j
    case _ => pages * slots
  }

  /** Where the pool's slot lies. */
  function AddressOf(s: Slab.State, slot: nat): nat
    requires s.Valid() && slot < |Flat(s.locks)|
  {
    FlatHas(s.locks, s.slots, slot);
    s.Address(slot / s.slots, slot % s.slots)
  }

  lemma NewRow(locks: seq<seq<bool>>, slots: nat)
    requires Rows(locks, slots)
    ensures var more := locks + [Slab.ClearRow(slots)];
            && |Flat(locks)| == |locks| * slots
            && Flat(Slab.SetLock(more, |locks|, 0, true))
               == (Flat(locks) + Slab.ClearRow(slots))[|locks| * slots := true]
  {
    FlatLength(locks, slots);
    FlatSnoc(locks, Slab.ClearRow(slots));
    FlatSet(locks + [Slab.ClearRow(slots)], slots, |locks|, 0, true);
  }

  /** An allocation from the cache is the pool's taking of a slot; it is refused only when no slot is clear. */
  lemma AllocIsTake(s: Slab.State, e: Slab.Event)
    requires s.Valid() && Slab.Enabled(s, e) && !e.Freed?
    ensures Slab.Next(s, e).Valid()
    ensures var before, after, slot := Flat(s.locks), Flat(Slab.Next(s, e).locks), SlotOf(|s.locks|, s.slots, e);
            if e.Refused? then after == before && FirstClear(before) == |before|
            else Took(before, after, slot) && |after| == |before| + (if e.Grew? then s.slots else 0)
                 && AddressOf(Slab.Next(s, e), slot) == if e.Grew? then e.base else s.Address(e.i, e.j)
  {
    Slab.NextValid(s, e);
    match e {
      case Took(i, j) =>
        ScansAgree(s, i, j);
        FlatSet(s.locks, s.slots, i, j, true);
        Quotient(i, j, s.slots);
      case Grew(b) =>
        NoneClear(s);
        NewRow(s.locks, s.slots);
        Quotient(|s.locks|, 0, s.slots);
      case Refused =>
        NoneClear(s);
    }
  }

  /** A free is the pool's release of that slot. */
  lemma FreeIsRelease(s: Slab.State, slot: nat)
    requires s.Valid() && s.Sized() && slot < |Flat(s.locks)|
    ensures s.Freeable(AddressOf(s, slot))
    ensures Flat(Slab.Next(s, Slab.Freed(AddressOf(s, slot))).locks) == Flat(s.locks)[slot := false]
  {
    FlatHas(s.locks, s.slots, slot);
    Slab.FreeWritesThatLock(s, slot / s.slots, slot % s.slots, 0);
    FlatSet(s.locks, s.slots, slot / s.slots, slot % s.slots, false);
  }

  /** A pool whose slots lie in a cache's pages, which are no builder's buffers. */
  ghost predicate Beside(pool: Pool, cache: Cache, heap: Heap)
    reads pool, pool.structs, cache, cache.Mems(), heap`live
  {
    && pool.Valid() && cache.Valid() && cache.Layout() && pool.slotsPerPage == cache.slots
    && pool.owner.Keys <= heap.live && cache.Mems() <= pool.Others(heap)
  }

  /** What the pool takes for live is what the lock bytes say. */
  ghost predicate Linked(pool: Pool, cache: Cache, heap: Heap)
    reads pool, pool.structs, cache, cache.Mems(), heap`live
  {
    Beside(pool, cache, heap) && pool.live == Flat(cache.state.locks)
  }

  /** `cache_alloc` with the page hook, which gives the slots of a new page their builders. */
  method AllocSlot(pool: Pool, cache: Cache, heap: Heap) returns (address: nat, slot: nat)
    requires Linked(pool, cache, heap)
    modifies pool`structs, pool`live, cache, cache.Mems(), heap
    ensures Beside(pool, cache, heap) && fresh(cache.Mems() - old(cache.Mems()))
    ensures pool.Others(heap) == old(pool.Others(heap)) + cache.Mems()
    ensures old(pool.structs) <= pool.structs
    ensures forall s | |old(pool.structs)| <= s < |pool.structs| :: fresh(pool.structs[s])
    ensures if address == 0 then pool.live == old(pool.live) == Flat(cache.state.locks)
            else Took(old(pool.live), Flat(cache.state.locks), slot) && Grew(old(pool.live), pool.live)
                 && |pool.live| == |Flat(cache.state.locks)| && address == AddressOf(cache.state, slot)
    ensures heap.refusals == old(heap.refusals) + if address == 0 then 1 else 0
  {
    ghost var before := cache.state;
    var pages := |cache.pages|;
    var e;
    address, e := cache.Alloc(heap);
    AllocIsTake(before, e);
    slot := SlotOf(pages, cache.slots, e);
    if e.Grew? {
      pool.AddPage();
    }
  }

  lemma TookGrew(before: seq<bool>, grown: seq<bool>, after: seq<bool>, slot: nat)
    requires Took(before, after, slot) && Grew(before, grown) && |grown| == |after|
    ensures !grown[slot] && after == grown[slot := true] && after[slot := false] == grown
  {
  }

  /** `strbuilder_new` over the cache itself: what `Pool.New` promises, with the lock bytes telling what is live, and
      the builder where its slot lies. */
  method NewOverCache(pool: Pool, cache: Cache, heap: Heap) returns (b: StrBuilder?, slot: nat, address: nat)
    requires Linked(pool, cache, heap)
    modifies pool, pool.NextStruct(), cache, cache.Mems(), heap
    ensures Linked(pool, cache, heap) && pool.Others(heap) == old(pool.Others(heap)) + cache.Mems()
    ensures fresh(cache.Mems() - old(cache.Mems())) && fresh(pool.owner.Keys - old(pool.owner.Keys))
    ensures old(pool.structs) <= pool.structs
    ensures forall s | |old(pool.structs)| <= s < |pool.structs| :: fresh(pool.structs[s])
    ensures if b == null then Grew(old(pool.live), pool.live) else Took(old(pool.live), pool.live, slot)
    ensures b != null ==> slot < |pool.structs| && b == pool.structs[slot] && b.Holds([])
    ensures b != null ==> address == AddressOf(cache.state, slot)
    ensures heap.refusals == old(heap.refusals) + if b == null then 1 else 0
  {
    b := null;
    address, slot := AllocSlot(pool, cache, heap);
    if address == 0 {
      return;
    }
    TookGrew(old(pool.live), pool.live, Flat(cache.state.locks), slot);
    b := OpenLocked(pool, cache, heap, slot, address);
  }

  /** The rest of it, on a slot just locked; without a buffer the slot is given back. */
  method OpenLocked(pool: Pool, cache: Cache, heap: Heap, slot: nat, address: nat) returns (b: StrBuilder?)
    requires Beside(pool, cache, heap) && slot < |Flat(cache.state.locks)| && address == AddressOf(cache.state, slot)
    requires slot < |pool.live| && !pool.live[slot] && Flat(cache.state.locks) == pool.live[slot := true]
    modifies pool.structs[slot], pool`owner, pool`live, cache`state, cache.Mems(), heap
    ensures Linked(pool, cache, heap) && pool.Others(heap) == old(pool.Others(heap))
    ensures cache.Mems() == old(cache.Mems()) && fresh(pool.owner.Keys - old(pool.owner.Keys))
    ensures pool.live == if b == null then old(pool.live) else old(pool.live)[slot := true]
    ensures b != null ==> b == pool.structs[slot] && b.Holds([]) && cache.state == old(cache.state)
    ensures heap.refusals == old(heap.refusals) + if b == null then 1 else 0
  {
    b := pool.OpenSlot(heap, slot);
    if b != null {
      return;
    }
    label Given:
    FreeIsRelease(cache.state, slot);
    cache.Free(address);
    pool.Same@Given();
  }

  /** `strbuilder_destroy` over the cache. */
  method DestroyOverCache(pool: Pool, cache: Cache, heap: Heap, slot: nat, address: nat)
    requires Linked(pool, cache, heap) && slot < |pool.live| && pool.live[slot]
    requires address == AddressOf(cache.state, slot)
    modifies pool`live, cache`state, cache.Mems()
    ensures Linked(pool, cache, heap) && pool.live == old(pool.live)[slot := false]
  {
    FreeIsRelease(cache.state, slot);
    cache.Free(address);
    pool.Destroy(slot);
  }

  /** The first call of `strbuilder_new` makes the cache; the hook gives its one page builders without buffers. */
  method NewLinked(heap: Heap, systemPage: nat, entrySize: nat, initialSize: nat) returns (pool: Pool, cache: Cache?)
    requires 0 < systemPage && 0 < entrySize && 0 < initialSize && !IsDoublingOf(systemPage, entrySize)
    modifies heap
    ensures heap.refusals == old(heap.refusals) + if cache == null then 1 else 0
    ensures cache == null ==> heap.live == old(heap.live)
    ensures cache != null ==>
      fresh(pool) && fresh(cache) && Linked(pool, cache, heap) && pool.live == Slab.ClearRow(cache.slots)
  {
    cache := NewCache(heap, systemPage, entrySize);
    if cache == null {
      pool := new Pool(1, initialSize);
      return;
    }
    pool := new Pool(cache.slots, initialSize);
    pool.AddPage();
    FlatSnoc([], Slab.ClearRow(cache.slots));
    assert cache.state.locks == [] + [Slab.ClearRow(cache.slots)];
  }
}

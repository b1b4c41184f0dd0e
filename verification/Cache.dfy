/** The slab cache of src/cache.c over real page memory, refining the state machine of module Slab. */
module SlabCache {
  import opened Bytes
  import opened Memory
  import opened Allocation
  import opened Slab

  /** One page: the address `alloc_mem` returned, and the bytes there. */
  datatype Page = Page(base: nat, mem: array<byte>)

  class Cache {
    const entrySize: nat
    const pageSize: nat
    var pages: seq<Page>
    ghost var state: State

    ghost function Mems(): set<object>
      reads this
    {
      set p | p in pages :: p.mem
    }

    // entries per page, and where a page's lock bytes start
    const slots: nat
    const locksAt: nat

    predicate Locked(mem: array<byte>, j: nat)
      requires locksAt + j < mem.Length
      reads mem
    {
      mem[locksAt + j] != 0
    }

    /** Slots come first in a page, then their lock bytes. */
    predicate Layout() {
      entrySize > 0 && slots == SlotsPerPage(pageSize, entrySize) && locksAt == slots * entrySize
    }

    /** Lock byte j of a page is nonzero exactly when its slot j is live. */
    ghost predicate Valid()
      reads this, Mems()
    {
      && state.Valid() && state.entrySize == entrySize && state.pageSize == pageSize && state.slots == slots
      && locksAt + slots <= pageSize
      && |pages| == |state.bases|
      && (forall i | 0 <= i < |pages| :: pages[i].base == state.bases[i] && pages[i].mem.Length == pageSize)
      && (forall i, k | 0 <= i < k < |pages| :: pages[i].mem != pages[k].mem)
      && (forall i, j | 0 <= i < |pages| && 0 <= j < slots :: state.locks[i][j] == Locked(pages[i].mem, j))
    }

    /** No byte that belongs to a slot has changed, in any page there was. */
    twostate predicate EntriesKept()
      reads this, Mems()
    {
      && old(pages) <= pages
      && forall i, k | 0 <= i < |old(pages)| && 0 <= k < locksAt && k < old(pages)[i].mem.Length ::
           old(pages)[i].mem[k] == old(pages[i].mem[k])
    }

    /** `init_page`: clears the lock bytes of a page just obtained. */
    method InitPage(mem: array<byte>)
      requires locksAt + slots <= mem.Length
      modifies mem
      ensures forall j | 0 <= j < slots :: !Locked(mem, j)
    {
      var locks := locksAt;
      for i := 0 to slots
        invariant forall k | locks <= k < locks + i :: mem[k] == 0
      {
        mem[locks + i] := 0;
      }
    }

    /** Writes one lock byte. */
    method WriteLock(i: nat, j: nat, value: byte)
      requires Valid() && i < |pages| && j < slots
      modifies pages[i].mem, this`state
      ensures Valid() && EntriesKept()
      ensures state == old(state).(locks := SetLock(old(state).locks, i, j, value != 0))
    {
      pages[i].mem[locksAt + j] := value;
      state := state.(locks := SetLock(state.locks, i, j, value != 0));
    }

    /** Both allocations may fail; the pages already there are untouched either way. */
    method AddPage(heap: Heap) returns (added: bool)
      requires Valid() && Mems() <= heap.live
      modifies this, heap
      ensures heap.refusals == old(heap.refusals) + if added then 0 else 1
      ensures Valid() && EntriesKept()
      ensures !added ==> state == old(state) && pages == old(pages) && heap.live == old(heap.live)
      ensures added ==>
        && |pages| == |old(pages)| + 1 && pages[..|old(pages)|] == old(pages)
        && fresh(pages[|old(pages)|].mem)
        && Placeable(old(state), pages[|old(pages)|].base)
        && state == PageAdded(old(state), pages[|old(pages)|].base)
        && heap.live == old(heap.live) + {pages[|old(pages)|].mem}
    {
      added := heap.Granted();
      if !added {
        return;
      }
      var mem := heap.Malloc(pageSize);
      if mem == null {
        return false;
      }
      var base := PlacePage(pages, pageSize);
      InitPage(mem);
      PageAddedValid(state, base);
      pages := pages + [Page(base, mem)];
      state := PageAdded(state, base);
    }

    /** Scans for a clear lock byte, page by page. */
    method Scan() returns (found: bool, i: nat, j: nat)
      requires Valid()
      ensures found ==> state.FirstFree(i, j)
      ensures !found ==> state.AllLocked()
    {
      i, j := 0, 0;
      while i < |pages|
        invariant i <= |pages|
        invariant forall h, k | 0 <= h < i && 0 <= k < slots :: state.locks[h][k]
      {
        j := 0;
        while j < slots
          invariant j <= slots
          invariant forall k | 0 <= k < j :: state.locks[i][k]
        {
          if !Locked(pages[i].mem, j) {
            return true, i, j;
          }
          j := j + 1;
        }
        i := i + 1;
      }
      found := false;
    }

    /** The rest of `cache_alloc` when the scan found nothing: a new page, and its first slot. */
    method AllocInNewPage(heap: Heap) returns (base: nat)
      requires Valid() && Mems() <= heap.live && state.AllLocked()
      modifies this, heap
      ensures heap.refusals == old(heap.refusals) + if base == 0 then 1 else 0
      ensures Valid() && EntriesKept()
      ensures base == 0 ==> state == old(state) && pages == old(pages) && heap.live == old(heap.live)
      ensures base != 0 ==>
        && Enabled(old(state), Grew(base)) && state == Next(old(state), Grew(base))
        && fresh(Mems() - old(Mems())) && old(Mems()) <= Mems() && heap.live == old(heap.live) + Mems()
    {
      var added := AddPage(heap);
      if !added {
        return 0;
      }
      base := pages[|pages| - 1].base;
      WriteLock(|pages| - 1, 0, 1);
      assert Mems() == old(Mems()) + {pages[|pages| - 1].mem};
      state := Next(old(state), Grew(base));
    }

    method TakeSlot(i: nat, j: nat) returns (address: nat)
      requires Valid() && state.FirstFree(i, j)
      modifies pages[i].mem, this`state
      ensures Valid() && EntriesKept()
      ensures state == Next(old(state), Took(i, j)) && address == old(state).Address(i, j) && address != 0
    {
      WriteLock(i, j, 1);
      address := pages[i].base + j * entrySize;
      state := Next(old(state), Took(i, j));
    }

    /** Takes the first free slot; adds a page and takes its first slot when there is none. */
    method Alloc(heap: Heap) returns (address: nat, e: Event)
      requires Valid() && Mems() <= heap.live
      modifies this, Mems(), heap
      ensures heap.refusals == old(heap.refusals) + if address == 0 then 1 else 0
      ensures Valid() && EntriesKept()
      ensures !e.Freed? && Enabled(old(state), e) && state == Next(old(state), e)
      ensures address == match e
                         case Took(i, j) => old(state).Address(i, j)
                         case Grew(b) => b
                         case _ => 0
      ensures address == 0 <==> e.Refused?
      ensures Mems() >= old(Mems()) && fresh(Mems() - old(Mems()))
      ensures heap.live == old(heap.live) + Mems()
    {
      var found, i, j := Scan();
      if found {
        e := Took(i, j);
        address := TakeSlot(i, j);
      } else {
        address := AllocInNewPage(heap);
        e := if address == 0 then Refused else Grew(address);
      }
    }

    /** Finds the page by address range and the slot by division. */
    method Free(address: nat)
      requires Valid() && state.Freeable(address)
      modifies this`state, Mems()
      ensures Valid() && EntriesKept()
      ensures state == Next(old(state), Freed(address))
    {
      for i := 0 to |pages|
        invariant PageOf(state, address, i) == PageOf(state, address, 0)
      {
        if pages[i].base <= address < pages[i].base + pageSize {
          WriteLock(i, (address - pages[i].base) / entrySize, 0);
          return;
        }
      }
    }

    /** A client writes a byte of an entry it holds: no lock and no other entry's byte changes. */
    method WriteEntry(i: nat, j: nat, offset: nat, value: byte)
      requires Valid() && Layout() && state.Live(i, j) && offset < entrySize
      modifies pages[i].mem
      ensures Valid()
      ensures forall h, k | 0 <= h < |pages| && 0 <= k < locksAt && (h, k) != (i, j * entrySize + offset) ::
                pages[h].mem[k] == old(pages[h].mem[k])
      ensures j * entrySize + offset < locksAt && pages[i].mem[j * entrySize + offset] == value
    {
      ProductOrder(j, slots, entrySize);
      pages[i].mem[j * entrySize + offset] := value;
    }

    /** Frees every page, each exactly once. */
    method Destroy(heap: Heap)
      requires Valid() && Mems() <= heap.live
      modifies heap
      ensures heap.live == old(heap.live) - Mems()
    {
      for i := 0 to |pages|
        invariant heap.live == old(heap.live) - (set k | 0 <= k < i :: pages[k].mem)
      {
        heap.Free(pages[i].mem);
      }
    }

    constructor (entrySize: nat, pageSize: nat)
      requires entrySize > 0
      ensures Layout() && pages == [] && this.entrySize == entrySize && this.pageSize == pageSize
      ensures slots >= 1 ==> Valid()
      ensures state == State(entrySize, pageSize, SlotsPerPage(pageSize, entrySize), [], [], 0)
    {
      SlotsFit(pageSize, entrySize);
      this.entrySize := entrySize;
      this.pageSize := pageSize;
      slots := SlotsPerPage(pageSize, entrySize);
      locksAt := SlotsPerPage(pageSize, entrySize) * entrySize;
      pages := [];
      state := State(entrySize, pageSize, SlotsPerPage(pageSize, entrySize), [], [], 0);
    }

    // ----- pages without slots: the entry is as large as the page, and the lock byte is the entry's first

    /** A cache whose entries fill their pages. */
    ghost predicate Slotless()
      reads this
    {
      && slots == 0 && locksAt == 0 && 0 < entrySize == pageSize
      && (forall i | 0 <= i < |pages| :: pages[i].mem.Length == pageSize && pages[i].base > 0)
      && (forall i, k | 0 <= i < k < |pages| :: pages[i].mem != pages[k].mem)
      && (forall i, k | 0 <= i < k < |pages| :: Apart(pages[i].base, pages[k].base, pageSize))
    }

    /** `add_page` on such a cache: no lock byte to clear. */
    method AddSlotlessPage(heap: Heap) returns (added: bool)
      requires Slotless() && Mems() <= heap.live
      modifies this`pages, heap
      ensures Slotless()
      ensures heap.refusals == old(heap.refusals) + if added then 0 else 1
      ensures !added ==> pages == old(pages) && heap.live == old(heap.live)
      ensures added ==>
        && |pages| == |old(pages)| + 1 && pages[..|old(pages)|] == old(pages)
        && fresh(pages[|old(pages)|].mem) && heap.live == old(heap.live) + {pages[|old(pages)|].mem}
    {
      added := heap.Granted();
      if !added {
        return;
      }
      var mem := heap.Malloc(pageSize);
      if mem == null {
        return false;
      }
      var base := PlacePage(pages, pageSize);
      pages := pages + [Page(base, mem)];
    }

    /** `cache_alloc` on such a cache: the scan never finds a slot, so every call adds a page. The entry lies within it,
        and the byte written as its lock is the entry's first. */
    method AllocSlotless(heap: Heap) returns (address: nat)
      requires Slotless() && Mems() <= heap.live
      modifies this`pages, heap
      ensures Slotless()
      ensures heap.refusals == old(heap.refusals) + if address == 0 then 1 else 0
      ensures address == 0 ==> pages == old(pages) && heap.live == old(heap.live)
      ensures address != 0 ==>
        && |pages| == |old(pages)| + 1 && pages[..|old(pages)|] == old(pages)
        && address == pages[|old(pages)|].base && fresh(pages[|old(pages)|].mem)
        && address + entrySize <= pages[|old(pages)|].base + pageSize && pages[|old(pages)|].mem[0] == 1
    {
      var added := AddSlotlessPage(heap);
      if !added {
        return 0;
      }
      var page := pages[|pages| - 1];
      page.mem[locksAt] := 1;
      address := page.base;
    }

    /** `cache_free` on such a cache, given an entry: it clears the entry's first byte and releases nothing, for no
        allocation will look at that page again. */
    method FreeSlotless(i: nat, offset: nat)
      requires Slotless() && i < |pages| && offset < entrySize
      modifies Mems()
      ensures Slotless() && pages[i].mem[0] == 0
      ensures forall h, k | 0 <= h < |pages| && 0 <= k < pageSize && (h, k) != (i, 0) ::
                pages[h].mem[k] == old(pages[h].mem[k])
    {
      var address := pages[i].base + offset;
      forall h | 0 <= h < |pages| && h != i
        ensures !(pages[h].base <= address < pages[h].base + pageSize)
      {
        assert h < i ==> Apart(pages[h].base, pages[i].base, pageSize);
        assert i < h ==> Apart(pages[i].base, pages[h].base, pageSize);
      }
      for h := 0 to |pages|
        invariant h <= i
        invariant forall m, k | 0 <= m < |pages| && 0 <= k < pageSize :: pages[m].mem[k] == old(pages[m].mem[k])
      {
        if pages[h].base <= address < pages[h].base + pageSize {
          assert h == i && (address - pages[h].base) / entrySize == 0;
          pages[h].mem[locksAt + (address - pages[h].base) / entrySize] := 0;
          return;
        }
      }
      assert false;
    }
  }

  /** `cache_new`: sizes the pages and obtains the first one, or gives everything back. There are slots if and only if
      the entry size is not itself a doubling of the system page. */
  method NewCache(heap: Heap, systemPage: nat, entrySize: nat) returns (c: Cache?)
    requires systemPage > 0 && entrySize > 0
    modifies heap
    ensures heap.refusals == old(heap.refusals) + if c == null then 1 else 0
    ensures c == null ==> heap.live == old(heap.live)
    ensures c != null ==>
      && fresh(c) && c.Layout() && c.entrySize == entrySize && c.pageSize == DoubleUntil(systemPage, entrySize)
      && |c.pages| == 1 && fresh(c.Mems()) && heap.live == old(heap.live) + c.Mems()
      && (c.slots >= 1 <==> !IsDoublingOf(systemPage, entrySize))
      && (c.slots == 0 ==> c.Slotless())
      && (c.slots >= 1 ==>
            c.Valid() && |c.state.bases| == 1 && c.state == Fresh(entrySize, c.pageSize, c.state.bases[0]))
  {
    var ok := heap.Granted();
    if !ok {
      return null;
    }
    var pageSize := GetPagedSize(systemPage, entrySize);
    PagesHoldSlots(systemPage, entrySize);
    c := new Cache(entrySize, pageSize);
    var added;
    if c.slots == 0 {
      DoubleUntilUnique(systemPage, entrySize, entrySize);
      added := c.AddSlotlessPage(heap);
    } else {
      added := c.AddPage(heap);
    }
    if !added {
      return null;
    }
    assert c.Mems() == {c.pages[0].mem};
  }

  /** Where `alloc_mem` puts a block: anywhere but NULL that is clear of the blocks already held. */
  method PlacePage(pages: seq<Page>, size: nat) returns (base: nat)
    ensures base > 0 && forall i | 0 <= i < |pages| :: Apart(pages[i].base, base, size)
  {
    base := 1;
    for k := 0 to |pages|
      invariant base > 0 && forall i | 0 <= i < k :: pages[i].base + size <= base
    {
      base := Max(base, pages[k].base + size);
    }
  }
}

/** What the slab cache of src/cache.c promises, as a state machine over pages and lock bytes. */
module Slab {
  import opened Memory

  /** Pages at addresses `bases`, each with one lock per slot; `peak` is the most slots ever live at once. */
  datatype State = State(entrySize: nat, pageSize: nat, slots: nat, bases: seq<nat>, locks: seq<seq<bool>>, peak: nat) {
    /** The number of slots is what the page size allows. */
    predicate Sized() {
      entrySize > 0 && slots == SlotsPerPage(pageSize, entrySize)
    }

    predicate IsSlot(i: nat, j: nat) {
      i < |bases| && j < slots
    }

    function Address(i: nat, j: nat): (a: nat)
      requires IsSlot(i, j)
      ensures a >= bases[i]
    {
      bases[i] + j * entrySize
    }

    /** The sizes never change. */
    predicate Like(s: State) {
      entrySize == s.entrySize && pageSize == s.pageSize && slots == s.slots
    }

    /** Pages do not overlap, none sits at NULL, and every page has a lock for every slot. */
    ghost predicate Valid() {
      && entrySize > 0 && slots >= 1
      && |locks| == |bases|
      && (forall i | 0 <= i < |locks| :: |locks[i]| == slots)
      && (forall i | 0 <= i < |bases| :: 0 < bases[i])
      && (forall i, k | 0 <= i < k < |bases| :: Apart(bases[i], bases[k], pageSize))
    }

    ghost predicate Live(i: nat, j: nat)
      requires Valid()
    {
      IsSlot(i, j) && locks[i][j]
    }

    /** The page count is at most max(1, ceil(peak / slots)). */
    ghost predicate Accounted() {
      && Total(locks) <= peak
      && (|bases| <= 1 || (|bases| - 1) * slots < peak)
    }

    predicate AllLocked() {
      forall i, j | 0 <= i < |locks| && 0 <= j < |locks[i]| :: locks[i][j]
    }

    /** The slot the scan of `cache_alloc` stops at. */
    predicate FirstFree(i: nat, j: nat) {
      && i < |locks| && j < |locks[i]| && !locks[i][j]
      && (forall k | 0 <= k < j :: locks[i][k])
      && (forall h, k | 0 <= h < i && 0 <= k < |locks[h]| :: locks[h][k])
    }

    predicate InPage(i: nat, address: nat)
      requires i < |bases|
    {
      bases[i] <= address < bases[i] + pageSize
    }

    /** `cache_free` demands that an address in a page lies in one of its slots. */
    predicate Freeable(address: nat)
      requires entrySize > 0
    {
      forall i | 0 <= i < |bases| && InPage(i, address) :: (address - bases[i]) / entrySize < slots
    }
  }

  /** A base that `alloc_mem` may return for one more page. */
  ghost predicate Placeable(s: State, base: nat) {
    0 < base && forall i | 0 <= i < |s.bases| :: Apart(s.bases[i], base, s.pageSize)
  }

  predicate Apart(a: nat, b: nat, size: nat) {
    a + size <= b || b + size <= a
  }

  function Count(row: seq<bool>): nat {
    if row == [] then 0 else (if row[0] then 1 else 0) + Count(row[1..])
  }

  function Total(locks: seq<seq<bool>>): nat {
    if locks == [] then 0 else Count(locks[0]) + Total(locks[1..])
  }

  function SetLock(locks: seq<seq<bool>>, i: nat, j: nat, value: bool): seq<seq<bool>>
    requires i < |locks| && j < |locks[i]|
  {
    locks[i := locks[i][j := value]]
  }

  function ClearRow(slots: nat): seq<bool> {
    seq(slots, _ => false)
  }

  /** The state once `add_page` has put a page at `base`, before any of its slots is taken. */
  function PageAdded(s: State, base: nat): State {
    s.(bases := s.bases + [base], locks := s.locks + [ClearRow(s.slots)])
  }

  /** What one call does: takes the first free slot, adds a page and takes its first slot, fails, or frees. */
  datatype Event = Took(i: nat, j: nat) | Grew(base: nat) | Refused | Freed(address: nat)

  ghost predicate Enabled(s: State, e: Event)
    requires s.Valid()
  {
    match e
    case Took(i, j) => s.FirstFree(i, j)
    case Grew(b) => s.AllLocked() && Placeable(s, b)
    case Refused => s.AllLocked()
    case Freed(a) => s.Freeable(a)
  }

  /** The page `cache_free` picks: the first whose address range holds the pointer. */
  function PageOf(s: State, address: nat, from: nat): nat
    requires from <= |s.bases|
    ensures from <= PageOf(s, address, from) <= |s.bases|
    ensures PageOf(s, address, from) < |s.bases| ==> s.InPage(PageOf(s, address, from), address)
    ensures forall i | from <= i < PageOf(s, address, from) :: !s.InPage(i, address)
    decreases |s.bases| - from
  {
    if from == |s.bases| || s.InPage(from, address) then from else PageOf(s, address, from + 1)
  }

  ghost function Next(s: State, e: Event): State
    requires s.Valid() && Enabled(s, e)
  {
    match e
    case Took(i, j) => WithLocks(s, SetLock(s.locks, i, j, true))
    case Grew(b) =>
      var t := PageAdded(s, b);
      WithLocks(t, SetLock(t.locks, |s.bases|, 0, true))
    case Refused => s
    case Freed(a) =>
      var i := PageOf(s, a, 0);
      if i == |s.bases| then s
      else s.(locks := SetLock(s.locks, i, (a - s.bases[i]) / s.entrySize, false))
  }

  function WithLocks(s: State, locks: seq<seq<bool>>): State {
    s.(locks := locks, peak := Max(s.peak, Total(locks)))
  }

  ghost predicate Runs(s: State, events: seq<Event>)
    requires s.Valid()
    decreases |events|
  {
    events == [] || (Enabled(s, events[0]) && (NextValid(s, events[0]); Runs(Next(s, events[0]), events[1..])))
  }

  ghost function After(s: State, events: seq<Event>): State
    requires s.Valid() && Runs(s, events)
    decreases |events|
  {
    if events == [] then s else NextValid(s, events[0]); After(Next(s, events[0]), events[1..])
  }

  lemma PageAddedValid(s: State, base: nat)
    requires s.Valid() && Placeable(s, base)
    ensures PageAdded(s, base).Valid()
  {
  }

  lemma NextValid(s: State, e: Event)
    requires s.Valid() && Enabled(s, e)
    ensures Next(s, e).Valid() && Next(s, e).Like(s)
  {
    if e.Grew? {
      PageAddedValid(s, e.base);
    }
    var t := Next(s, e);
    assert t.bases == if e.Grew? then s.bases + [e.base] else s.bases;
    assert forall i | 0 <= i < |t.locks| :: |t.locks[i]| == s.slots;
  }

  // ----- counting

  lemma {:induction false} CountSet(row: seq<bool>, j: nat, value: bool)
    requires j < |row|
    ensures Count(row[j := value]) == Count(row) + (if value then 1 else 0) - (if row[j] then 1 else 0)
  {
    if j > 0 {
      assert row[j := value][1..] == row[1..][j - 1 := value];
      CountSet(row[1..], j - 1, value);
    }
  }

  lemma {:induction false} TotalSet(locks: seq<seq<bool>>, i: nat, j: nat, value: bool)
    requires i < |locks| && j < |locks[i]|
    ensures Total(SetLock(locks, i, j, value))
         == Total(locks) + (if value then 1 else 0) - (if locks[i][j] then 1 else 0)
  {
    if i == 0 {
      CountSet(locks[0], j, value);
      assert SetLock(locks, i, j, value)[1..] == locks[1..];
    } else {
      assert SetLock(locks, i, j, value)[1..] == SetLock(locks[1..], i - 1, j, value);
      TotalSet(locks[1..], i - 1, j, value);
    }
  }

  lemma {:induction false} CountConstant(row: seq<bool>, value: bool)
    requires forall k | 0 <= k < |row| :: row[k] == value
    ensures Count(row) == if value then |row| else 0
  {
    if row != [] {
      CountConstant(row[1..], value);
    }
  }

  lemma {:induction false} CountSnoc(row: seq<bool>, last: bool)
    ensures Count(row + [last]) == Count(row) + if last then 1 else 0
  {
    if row == [] {
      assert row + [last] == [last] && [last][1..] == [];
    } else {
      assert (row + [last])[1..] == row[1..] + [last];
      CountSnoc(row[1..], last);
    }
  }

  lemma {:induction false} TotalAppend(locks: seq<seq<bool>>, row: seq<bool>)
    ensures Total(locks + [row]) == Total(locks) + Count(row)
  {
    if locks == [] {
      assert locks + [row] == [row];
    } else {
      assert (locks + [row])[1..] == locks[1..] + [row];
      TotalAppend(locks[1..], row);
    }
  }

  lemma {:induction false} TotalLocked(locks: seq<seq<bool>>, slots: nat)
    requires forall i | 0 <= i < |locks| :: |locks[i]| == slots
    requires forall i, j | 0 <= i < |locks| && 0 <= j < |locks[i]| :: locks[i][j]
    ensures Total(locks) == |locks| * slots
  {
    if locks != [] {
      CountConstant(locks[0], true);
      assert forall i | 0 <= i < |locks[1..]| :: locks[1..][i] == locks[i + 1];
      TotalLocked(locks[1..], slots);
    }
  }

  // ----- geometry

  lemma ProductOrder(j: nat, k: nat, size: nat)
    requires j < k
    ensures j * size + size <= k * size
  {
    assert (j + 1) * size <= k * size;
  }

  /** Every slot lies in its page, below that page's lock bytes, and no two slots share a byte. */
  lemma SlotsApart(s: State, i: nat, j: nat, h: nat, k: nat)
    requires s.Valid() && s.Sized() && s.IsSlot(i, j) && s.IsSlot(h, k) && (i, j) != (h, k)
    ensures Apart(s.Address(i, j), s.Address(h, k), s.entrySize)
  {
    SlotInPage(s, i, j);
    SlotInPage(s, h, k);
    if i == h {
      if j < k {
        ProductOrder(j, k, s.entrySize);
      } else {
        ProductOrder(k, j, s.entrySize);
      }
    }
  }

  /** The lock bytes of page h, `slots` of them, start right after its slots and end within the page. */
  lemma SlotInPage(s: State, i: nat, j: nat)
    requires s.Valid() && s.Sized() && s.IsSlot(i, j)
    ensures s.bases[i] <= s.Address(i, j)
    ensures s.Address(i, j) + s.entrySize <= s.bases[i] + s.slots * s.entrySize
    ensures s.slots * s.entrySize + s.slots <= s.pageSize
  {
    ProductOrder(j, s.slots, s.entrySize);
    SlotsFit(s.pageSize, s.entrySize);
    assert s.slots * (s.entrySize + 1) == s.slots * s.entrySize + s.slots;
  }

  /** No slot shares a byte with the lock bytes of any page, its own or another. */
  lemma SlotsAvoidLocks(s: State, i: nat, j: nat, h: nat)
    requires s.Valid() && s.Sized() && s.IsSlot(i, j) && h < |s.bases|
    ensures var lock := s.bases[h] + s.slots * s.entrySize;
            s.Address(i, j) + s.entrySize <= lock || lock + s.slots <= s.Address(i, j)
  {
    SlotInPage(s, i, j);
    SlotInPage(s, h, 0);
    assert i != h ==> Apart(s.bases[i], s.bases[h], s.pageSize);
  }

  // ----- one call

  /** An allocation makes exactly one slot live, one that was not live before; a failed one changes nothing. */
  lemma AllocAddsOneSlot(s: State, e: Event)
    requires s.Valid() && Enabled(s, e) && !e.Freed?
    ensures Next(s, e).Valid()
    ensures e.Refused? ==> Next(s, e) == s
    ensures !e.Refused? ==>
              var (i, j) := if e.Took? then (e.i, e.j) else (|s.bases|, 0);
              && !s.Live(i, j)
              && forall h: nat, k: nat :: Next(s, e).Live(h, k) <==> s.Live(h, k) || (h, k) == (i, j)
  {
    NextValid(s, e);
  }

  lemma DivideBack(j: nat, size: nat, offset: nat)
    requires offset < size
    ensures (j * size + offset) / size == j
  {
    var q := (j * size + offset) / size;
    assert q * size <= j * size + offset < q * size + size;
    if q < j {
      ProductOrder(q, j, size);
    } else if j < q {
      ProductOrder(j, q, size);
    }
  }

  lemma OnePageHolds(s: State, i: nat, address: nat)
    requires s.Valid() && i < |s.bases| && s.InPage(i, address)
    ensures forall h: nat | h < |s.bases| && s.InPage(h, address) :: h == i
    ensures PageOf(s, address, 0) == i
  {
    forall h: nat | h < |s.bases| && s.InPage(h, address)
      ensures h == i
    {
      assert h < i ==> Apart(s.bases[h], s.bases[i], s.pageSize);
      assert i < h ==> Apart(s.bases[i], s.bases[h], s.pageSize);
    }
  }

  /** `cache_free` finds the page and, by division, the slot that an address inside an entry belongs to. */
  lemma AddressFindsSlot(s: State, i: nat, j: nat, offset: nat)
    requires s.Valid() && s.Sized() && s.IsSlot(i, j) && offset < s.entrySize
    ensures var a := s.Address(i, j) + offset;
            s.Freeable(a) && PageOf(s, a, 0) == i && (a - s.bases[i]) / s.entrySize == j
  {
    var a := s.Address(i, j) + offset;
    SlotInPage(s, i, j);
    DivideBack(j, s.entrySize, offset);
    assert s.InPage(i, a) && a - s.bases[i] == j * s.entrySize + offset;
    OnePageHolds(s, i, a);
  }

  lemma FreeWritesThatLock(s: State, i: nat, j: nat, offset: nat)
    requires s.Valid() && s.Sized() && s.IsSlot(i, j) && offset < s.entrySize
    ensures var a := s.Address(i, j) + offset;
            s.Freeable(a) && Next(s, Freed(a)) == s.(locks := SetLock(s.locks, i, j, false))
  {
    AddressFindsSlot(s, i, j, offset);
  }

  /** Freeing through any address inside a live entry releases that slot and no other. */
  lemma FreeReleasesThatSlot(s: State, i: nat, j: nat, offset: nat)
    requires s.Valid() && s.Sized() && s.Live(i, j) && offset < s.entrySize
    ensures var a := s.Address(i, j) + offset;
            && s.Freeable(a)
            && Next(s, Freed(a)).Valid()
            && (forall h: nat, k: nat :: Next(s, Freed(a)).Live(h, k) <==> s.Live(h, k) && (h, k) != (i, j))
  {
    FreeWritesThatLock(s, i, j, offset);
    NextValid(s, Freed(s.Address(i, j) + offset));
  }

  /** Allocating from a free slot and freeing it again leaves every lock as it was. */
  lemma AllocThenFree(s: State, i: nat, j: nat, offset: nat)
    requires s.Valid() && s.Sized() && s.FirstFree(i, j) && offset < s.entrySize
    ensures var t := Next(s, Took(i, j));
            && t.Valid() && Enabled(t, Freed(s.Address(i, j) + offset))
            && Next(t, Freed(s.Address(i, j) + offset)).locks == s.locks
  {
    var t := Next(s, Took(i, j));
    NextValid(s, Took(i, j));
    FreeReleasesThatSlot(t, i, j, offset);
    var u := Next(t, Freed(s.Address(i, j) + offset));
    forall h | 0 <= h < |s.locks|
      ensures u.locks[h] == s.locks[h]
    {
      assert forall k | 0 <= k < s.slots :: u.locks[h][k] == u.Live(h, k) && s.locks[h][k] == s.Live(h, k);
    }
  }

  lemma GrownTotal(s: State, base: nat)
    requires s.Valid() && s.AllLocked()
    ensures Total(s.locks) == |s.bases| * s.slots
    ensures Total(SetLock(PageAdded(s, base).locks, |s.bases|, 0, true)) == Total(s.locks) + 1
  {
    TotalLocked(s.locks, s.slots);
    CountConstant(ClearRow(s.slots), false);
    TotalAppend(s.locks, ClearRow(s.slots));
    TotalSet(PageAdded(s, base).locks, |s.bases|, 0, true);
  }

  lemma GrewAccounted(s: State, base: nat)
    requires s.Valid() && s.Accounted() && Enabled(s, Grew(base))
    ensures var t := Next(s, Grew(base)); t.Accounted() && Total(t.locks) == Total(s.locks) + 1
  {
    GrownTotal(s, base);
    var t := Next(s, Grew(base));
    assert |t.bases| - 1 == |s.bases| && t.slots == s.slots;
  }

  lemma FreedTotal(s: State, address: nat)
    requires s.Valid() && Enabled(s, Freed(address))
    ensures var t := Next(s, Freed(address));
            Total(t.locks) == Total(s.locks) - (if t.locks == s.locks then 0 else 1)
  {
    var i := PageOf(s, address, 0);
    if i < |s.bases| {
      var j := (address - s.bases[i]) / s.entrySize;
      TotalSet(s.locks, i, j, false);
      if !s.locks[i][j] {
        assert s.locks[i][j := false] == s.locks[i];
      }
    }
  }

  /** Each call keeps the page bound and changes the number of live slots by exactly what it did. */
  lemma NextAccounted(s: State, e: Event)
    requires s.Valid() && s.Accounted() && Enabled(s, e)
    ensures Next(s, e).Accounted()
    ensures Total(Next(s, e).locks) == Total(s.locks)
      + (if e.Took? || e.Grew? then 1 else 0) - (if e.Freed? && Next(s, e).locks != s.locks then 1 else 0)
  {
    match e
    case Took(i, j) => TotalSet(s.locks, i, j, true);
    case Grew(b) => GrewAccounted(s, b);
    case Refused =>
    case Freed(a) => FreedTotal(s, a);
  }

  // ----- whole runs

  /** Over every run of allocations and frees, whatever fails: pages stay apart and well formed, and the
      page count stays within max(1, ceil(peak / slots)). */
  lemma {:induction false} RunsStaySafe(s: State, events: seq<Event>)
    requires s.Valid() && s.Accounted() && Runs(s, events)
    ensures After(s, events).Valid() && After(s, events).Accounted() && After(s, events).Like(s)
    decreases |events|
  {
    if events != [] {
      NextValid(s, events[0]);
      NextAccounted(s, events[0]);
      RunsStaySafe(Next(s, events[0]), events[1..]);
    }
  }

  /** The state `cache_new` leaves behind: one page, every slot free. */
  function Fresh(entrySize: nat, pageSize: nat, base: nat): State {
    PageAdded(State(entrySize, pageSize, SlotsPerPage(pageSize, entrySize), [], [], 0), base)
  }

  /** So from a new cache on, any two live entries are disjoint and clear of every lock byte, and the
      number of pages is the one accounting allows. */
  lemma LiveEntriesNeverOverlap(entrySize: nat, pageSize: nat, base: nat, events: seq<Event>,
                                i: nat, j: nat, h: nat, k: nat)
    requires entrySize > 0 && SlotsPerPage(pageSize, entrySize) >= 1 && base > 0
    requires var s := Fresh(entrySize, pageSize, base); s.Valid() && Runs(s, events)
    ensures var t := After(Fresh(entrySize, pageSize, base), events);
            && t.Valid() && t.Accounted()
            && (t.Live(i, j) && t.Live(h, k) && (i, j) != (h, k) ==>
                  && Apart(t.Address(i, j), t.Address(h, k), t.entrySize)
                  && var lock := t.bases[h] + t.slots * t.entrySize;
                     t.Address(i, j) + t.entrySize <= lock || lock + t.slots <= t.Address(i, j))
  {
    var s := Fresh(entrySize, pageSize, base);
    CountConstant(s.locks[0], false);
    assert s.locks[1..] == [];
    RunsStaySafe(s, events);
    var t := After(s, events);
    if t.Live(i, j) && t.Live(h, k) && (i, j) != (h, k) {
      SlotsApart(t, i, j, h, k);
      SlotsAvoidLocks(t, i, j, h);
    }
  }
}

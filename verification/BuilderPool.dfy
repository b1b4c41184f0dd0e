/** The pooled builders of src/strbuilder.c: a builder struct in every slot of a slab cache, each keeping its
    buffer across uses. The cache enters through what module Slab proves of it: an allocation makes one
    slot live that was not, adding a page first when every slot is live; a free releases just its slot. */
module BuilderPool {
  import opened Bytes
  import opened Allocation
  import opened StringBuilder
  import opened Digits
  import opened Records
  import opened Rfc5424
  import opened Formatter
  import Slab

  /** How `format_entry` ends: with a line in a builder; without a builder; or with a builder whose slot stays taken,
      because an append failed and the chain of appends went on without it. */
  datatype Outcome = Got(slot: nat) | Denied | Leaked(slot: nat)

  /** Swapping one owned block for a fresh one leaves the blocks that are not owned as they were. */
  lemma SwapBlock(before: set<object>, after: set<object>, was: object, now: object, keys: set<object>)
    requires was in keys && keys <= before && now in after && (now == was || now !in before)
    requires after - {now} == before - {was}
    ensures keys - {was} + {now} <= after && after - (keys - {was} + {now}) == before - keys
  {
    forall o: object
      ensures o in after && o != now <==> o in before && o != was
    {
      assert o in after - {now} <==> o in before - {was};
    }
  }

  lemma AddBlock(before: set<object>, after: set<object>, now: object, keys: set<object>)
    requires keys <= before && after == before + {now} && (now in keys || now !in before)
    ensures keys + {now} <= after && after - (keys + {now}) == before - keys
  {
  }

  /** The first slot that is not live, or their number. */
  function FirstClear(live: seq<bool>): (k: nat)
    ensures k <= |live| && (k < |live| ==> !live[k]) && forall h | 0 <= h < k :: live[h]
  {
    if live == [] || !live[0] then 0 else 1 + FirstClear(live[1..])
  }

  /** Pages may have been added, none of their slots live. */
  predicate Grew(before: seq<bool>, after: seq<bool>) {
    |before| <= |after| && after == before + Slab.ClearRow(|after| - |before|)
  }

  /** So, and then the first slot that was not live was taken. */
  predicate Took(before: seq<bool>, after: seq<bool>, slot: nat) {
    && |before| <= |after| && slot == FirstClear(before) < |after|
    && after == (before + Slab.ClearRow(|after| - |before|))[slot := true]
  }

  lemma TakeClear(before: seq<bool>, after: seq<bool>, slot: nat)
    requires Grew(before, after) && slot == FirstClear(before) < |after|
    ensures !after[slot] && Took(before, after[slot := true], slot)
  {
  }

  class Pool {
    const slotsPerPage: nat
    const initialSize: nat
    // the struct in each slot, all pages in order, and which slots are live
    var structs: seq<StrBuilder>
    var live: seq<bool>
    // the one slot each heap buffer belongs to
    ghost var owner: map<array<byte>, nat>

    /** Slots hold their own structs, and every buffer has its one owner. */
    ghost predicate Owned()
      reads this, structs
    {
      && (forall s | 0 <= s < |structs| :: structs[s].home == s && (structs[s].buffer != null ==>
            structs[s].Valid() && structs[s].buffer in owner && owner[structs[s].buffer] == s))
      && (forall o | o in owner :: owner[o] < |structs| && structs[owner[o]].buffer == o)
    }

    /** Every live heap block that is not a builder's buffer. */
    ghost function Others(heap: Heap): set<object>
      reads this, heap`live
    {
      heap.live - owner.Keys
    }

    /** A live slot holds a usable builder. */
    ghost predicate Valid()
      reads this, structs
    {
      && initialSize > 0 && slotsPerPage > 0 && Owned() && |live| == |structs|
      && forall s | 0 <= s < |live| && live[s] :: structs[s].buffer != null
    }

    /** What every call on the pool leaves: its invariant, the other heap blocks, and all structs in their slots. */
    twostate predicate Went(heap: Heap)
      reads this, structs, heap`live
    {
      && Valid() && owner.Keys <= heap.live && Others(heap) == old(Others(heap))
      && fresh(owner.Keys - old(owner.Keys))
      && old(structs) <= structs && forall s | |old(structs)| <= s < |structs| :: fresh(structs[s])
    }

    /** The builders in these slots hold these texts. */
    ghost predicate Texts(held: map<nat, Str>)
      reads this`structs, structs, set b | b in structs && b.buffer != null :: b.buffer
    {
      forall s | s in held :: s < |structs| && structs[s].Holds(held[s])
    }

    /** They do, and their slots are live. */
    ghost predicate AllLive(held: map<nat, Str>)
      reads this`live, this`structs, structs, set b | b in structs && b.buffer != null :: b.buffer
    {
      Texts(held) && forall s | s in held :: s < |live| && live[s]
    }

    lemma NextIsNobodys(held: map<nat, Str>)
      requires Valid() && AllLive(held)
      ensures forall s | s in held :: structs[s] !in NextStruct() && structs[s].buffer !in NextBuffer()
    {
      var k := FirstClear(live);
      if k < |structs| {
        AllApart(k);
      }
    }

    lemma OneText(held: map<nat, Str>, slot: nat, text: Str)
      requires Texts(held - {slot}) && slot < |structs| && structs[slot].Holds(text)
      ensures Texts(held[slot := text])
    {
      forall s | s in held && s != slot
        ensures s < |structs| && structs[s].Holds(held[s])
      {
        assert s in held - {slot};
      }
    }

    twostate lemma Same()
      requires unchanged(this) && unchanged(structs)
      ensures Valid() == old(Valid())
    {
    }

    /** Two slots never share a struct or a buffer, live or not. */
    lemma BuildersApart(s: nat, t: nat)
      requires Owned() && s < |structs| && t < |structs| && s != t
      ensures structs[s] != structs[t]
      ensures structs[s].buffer != null ==> structs[s].buffer != structs[t].buffer
    {
      assert structs[s].home == s && structs[t].home == t;
    }

    lemma AllApart(slot: nat)
      requires Owned() && slot < |structs|
      ensures forall s | 0 <= s < |structs| && s != slot ::
                structs[s] != structs[slot] && (structs[s].buffer != null ==> structs[s].buffer != structs[slot].buffer)
    {
      forall s | 0 <= s < |structs| && s != slot
        ensures structs[s] != structs[slot] && (structs[s].buffer != null ==> structs[s].buffer != structs[slot].buffer)
      {
        BuildersApart(s, slot);
      }
    }

    /** The struct in the first slot that is not live, and its buffer: all that a call that takes a slot writes to. */
    ghost function NextStruct(): (structs: set<StrBuilder>)
      reads this
    {
      var k := FirstClear(live);
      if k < |this.structs| then {this.structs[k]} else {}
    }

    ghost function NextBuffer(): set<array<byte>>
      reads this, structs
    {
      var k := FirstClear(live);
      if k < |structs| && structs[k].buffer != null then {structs[k].buffer} else {}
    }

    constructor (slotsPerPage: nat, initialSize: nat)
      requires slotsPerPage > 0 && initialSize > 0
      ensures Valid() && structs == [] && owner == map[]
      ensures this.slotsPerPage == slotsPerPage && this.initialSize == initialSize
    {
      this.slotsPerPage, this.initialSize := slotsPerPage, initialSize;
      structs, live, owner := [], [], map[];
    }

    /** The page hook: `strbuilder_init` on every slot of a new page, none of them live. */
    method AddPage()
      requires Valid()
      modifies this`structs, this`live
      ensures Valid() && |structs| == |old(structs)| + slotsPerPage
      ensures old(structs) <= structs && forall s | |old(structs)| <= s < |structs| :: fresh(structs[s])
      ensures live == old(live) + Slab.ClearRow(slotsPerPage)
    {
      for k := 0 to slotsPerPage
        invariant Valid() && |structs| == |old(structs)| + k
        invariant old(structs) <= structs && forall s | |old(structs)| <= s < |structs| :: fresh(structs[s])
        invariant live == old(live) + Slab.ClearRow(k)
      {
        var b := new StrBuilder(|structs|);
        structs, live := structs + [b], live + [false];
      }
    }

    /** The rest of `strbuilder_new`: gives the struct in a free slot a buffer if it has none. On failure
        the slot is free again. */
    method OpenSlot(heap: Heap, slot: nat) returns (b: StrBuilder?)
      requires Valid() && slot < |structs| && owner.Keys <= heap.live
      modifies structs[slot], this`owner, this`live, heap
      ensures Valid() && owner.Keys <= heap.live && Others(heap) == old(Others(heap))
      ensures fresh(owner.Keys - old(owner.Keys))
      ensures b != null ==> b == structs[slot] && b.buffer != null && b.Contents() == []
      ensures live == if b == null then old(live) else old(live)[slot := true]
      ensures b == null ==> unchanged(structs[slot])
      ensures heap.refusals == old(heap.refusals) + if b == null then 1 else 0
      ensures old(structs[slot].buffer) != null ==> b != null && b.buffer == old(structs[slot].buffer)
    {
      b := structs[slot];
      AllApart(slot);
      var ok := b.Open(heap, initialSize);
      if !ok { return null; }
      AddBlock(old(heap.live), heap.live, b.buffer, owner.Keys);
      owner := owner[b.buffer := slot];
      live := live[slot := true];
    }

    /** `cache_alloc`: the first slot that is not live, from a new page when all are. */
    method TakeSlot(heap: Heap) returns (taken: bool, slot: nat)
      requires Valid()
      modifies this`structs, this`live, heap`refusals
      ensures Valid()
      ensures old(structs) <= structs && forall s | |old(structs)| <= s < |structs| :: fresh(structs[s])
      ensures Grew(old(live), live)
      ensures taken ==> slot == FirstClear(old(live)) < |structs|
      ensures heap.refusals == old(heap.refusals) + if taken then 0 else 1
      ensures FirstClear(old(live)) < |old(live)| ==> taken
    {
      slot := 0;
      while slot < |live|
        invariant slot <= |live|
        invariant FirstClear(live) >= slot
      {
        if !live[slot] {
          return true, slot;
        }
        slot := slot + 1;
      }
      taken := heap.Granted();
      if taken {
        AddPage();
      }
    }

    /** An empty builder in a slot that was free, whatever the slot held before; or nothing, and no slot lost. */
    method New(heap: Heap) returns (b: StrBuilder?, slot: nat)
      requires Valid() && owner.Keys <= heap.live
      modifies this, NextStruct(), heap
      ensures Went(heap)
      ensures b != null ==> slot < |structs| && b == structs[slot] && b.buffer != null && b.Contents() == []
      ensures if b == null then Grew(old(live), live) else Took(old(live), live, slot)
      ensures b == null ==> unchanged(old(NextStruct()))
      ensures heap.refusals == old(heap.refusals) + if b == null then 1 else 0
      ensures var s := FirstClear(old(live));
              s < |old(live)| && old(structs[s].buffer) != null ==> b != null && b.buffer == old(structs[s].buffer)
    {
      b := null;
      var taken;
      taken, slot := TakeSlot(heap);
      if taken {
        TakeClear(old(live), live, slot);
        b := OpenSlot(heap, slot);
      }
    }

    /** Releases the slot; the struct keeps its buffer for the next user. */
    method Destroy(slot: nat)
      requires Valid() && slot < |live| && live[slot]
      modifies this`live
      ensures Valid() && live == old(live)[slot := false]
    {
      live := live[slot := false];
    }

    /** The struct in `slot` has swapped its buffer `was` for one that was not live before. */
    ghost method Reown(heap: Heap, slot: nat, was: array<byte>, before: set<object>)
      requires slot < |structs| && was in owner && owner[was] == slot
      requires structs[slot].buffer != null && structs[slot].buffer in heap.live && owner.Keys <= before
      requires structs[slot].buffer == was || structs[slot].buffer !in before
      requires structs[slot].Others(heap) == before - {was}
      requires forall o | o in owner && o != was :: owner[o] < |structs| && structs[owner[o]].buffer == o
      requires forall s | 0 <= s < |structs| && s != slot && structs[s].buffer != null ::
                 structs[s].buffer in owner && owner[structs[s].buffer] == s
      modifies this`owner
      ensures owner.Keys <= heap.live && Others(heap) == before - old(owner.Keys)
      ensures forall o | o in owner :: o in old(owner) || o == structs[slot].buffer
      ensures forall o | o in owner :: owner[o] < |structs| && structs[owner[o]].buffer == o
      ensures forall s | 0 <= s < |structs| && structs[s].buffer != null ::
                structs[s].buffer in owner && owner[structs[s].buffer] == s
    {
      SwapBlock(before, heap.live, was, structs[slot].buffer, owner.Keys);
      ghost var keys := owner.Keys;
      owner := (owner - {was})[structs[slot].buffer := slot];
      assert owner.Keys == keys - {was} + {structs[slot].buffer};
    }

    /** Any of the four appends to one live builder, which may swap its buffer. It writes to that struct and its buffer
        alone, which by `BuildersApart` are no other builder's. */
    method Append(heap: Heap, slot: nat, piece: Piece) returns (ok: bool, left: Str)
      requires Valid() && owner.Keys <= heap.live && slot < |live| && live[slot]
      modifies structs[slot], structs[slot].buffer, this`owner, heap
      ensures Valid() && owner.Keys <= heap.live && Others(heap) == old(Others(heap))
      ensures fresh(owner.Keys - old(owner.Keys))
      ensures structs[slot].Contents() == old(structs[slot].Contents()) + left
      ensures if ok then left == piece.Rendering() else left == [] || piece.MayLeave(left)
      ensures heap.refusals == old(heap.refusals) + if ok then 0 else 1
    {
      ok, left := AppendPiece(heap, structs[slot], piece);
      Reown(heap, slot, old(structs[slot].buffer), old(heap.live));
    }

    /** `format_entry` with a builder from the pool: the line of module Formatter in a slot that was free. Without a
        builder every slot is as it was; after a failed append one more slot is live, and nobody holds it. A line that
        fits the buffer kept in the first free slot cannot fail. */
    method Format(heap: Heap, e: EntryRec, env: Env) returns (outcome: Outcome)
      requires Valid() && owner.Keys <= heap.live && -0x8000_0000 <= e.prival < 0x8000_0000
      modifies this, NextStruct(), NextBuffer(), heap
      ensures Went(heap)
      ensures heap.refusals == old(heap.refusals) + if outcome.Got? then 0 else 1
      ensures if outcome.Denied? then Grew(old(live), live) else Took(old(live), live, outcome.slot)
      ensures outcome.Got? ==> structs[outcome.slot].Contents() == Line(Rendered(e, env))
      ensures outcome.Denied? ==> unchanged(old(NextStruct()))
      ensures var s := FirstClear(old(live));
              (s < |old(live)| && old(structs[s].buffer) != null
               && |Line(Rendered(e, env))| <= old(structs[s].buffer.Length)) ==> outcome == Got(s)
    {
      var b, slot := New(heap);
      outcome := Denied;
      if b != null {
        var ok := FormatIn(heap, slot, e, env);
        outcome := if ok then Got(slot) else Leaked(slot);
      }
    }

    /** An append to one builder leaves the others their texts. */
    method AppendBeside(heap: Heap, slot: nat, piece: Piece, ghost held: map<nat, Str>) returns (ok: bool, left: Str)
      requires Valid() && owner.Keys <= heap.live && AllLive(held) && slot in held
      modifies structs[slot], structs[slot].buffer, this`owner, heap
      ensures Went(heap) && heap.refusals == old(heap.refusals) + if ok then 0 else 1
      ensures if ok then left == piece.Rendering() else left == [] || piece.MayLeave(left)
      ensures Texts(held[slot := held[slot] + left])
    {
      AllApart(slot);
      ok, left := Append(heap, slot, piece);
      ghost var others := held - {slot};
      forall s | s in others
        ensures structs[s].Holds(held[s])
      {
        structs[s].StillHolds(held[s]);
      }
      assert Texts(others);
      OneText(held, slot, held[slot] + left);
    }

    /** A new builder leaves the texts in live slots as they were. */
    method NewBeside(heap: Heap, ghost held: map<nat, Str>) returns (b: StrBuilder?, slot: nat)
      requires Valid() && owner.Keys <= heap.live && AllLive(held)
      modifies this, NextStruct(), heap
      ensures Went(heap) && heap.refusals == old(heap.refusals) + if b == null then 1 else 0
      ensures if b == null then Grew(old(live), live) else Took(old(live), live, slot) && structs[slot].Holds([])
      ensures Texts(held)
    {
      NextIsNobodys(held);
      b, slot := New(heap);
      forall s | s in held
        ensures structs[s].Holds(held[s])
      {
        structs[s].StillHolds(held[s]);
      }
    }

    /** So does a line. */
    method FormatBeside(heap: Heap, e: EntryRec, env: Env, ghost held: map<nat, Str>) returns (outcome: Outcome)
      requires Valid() && owner.Keys <= heap.live && -0x8000_0000 <= e.prival < 0x8000_0000 && AllLive(held)
      modifies this, NextStruct(), NextBuffer(), heap
      ensures Went(heap) && heap.refusals == old(heap.refusals) + if outcome.Got? then 0 else 1
      ensures if outcome.Denied? then Grew(old(live), live) else Took(old(live), live, outcome.slot)
      ensures outcome.Got? ==> structs[outcome.slot].Holds(Line(Rendered(e, env)))
      ensures Texts(held)
    {
      NextIsNobodys(held);
      outcome := Format(heap, e, env);
      forall s | s in held
        ensures structs[s].Holds(held[s])
      {
        structs[s].StillHolds(held[s]);
      }
    }

    /** The chain of appends of `format_entry`, on the empty builder in a live slot. */
    method FormatIn(heap: Heap, slot: nat, e: EntryRec, env: Env) returns (ok: bool)
      requires Valid() && owner.Keys <= heap.live && slot < |live| && live[slot]
      requires structs[slot].Contents() == [] && -0x8000_0000 <= e.prival < 0x8000_0000
      modifies structs[slot], structs[slot].buffer, this`owner, heap
      ensures Valid() && owner.Keys <= heap.live && Others(heap) == old(Others(heap))
      ensures fresh(owner.Keys - old(owner.Keys))
      ensures ok ==> structs[slot].Contents() == Line(Rendered(e, env))
      ensures |Line(Rendered(e, env))| <= old(structs[slot].buffer.Length) ==> ok
      ensures heap.refusals == old(heap.refusals) + if ok then 0 else 1
    {
      ok := FormatEntry(heap, structs[slot], e, env);
      Reown(heap, slot, old(structs[slot].buffer), old(heap.live));
    }

    /** `cache_destroy` with the teardown hook: frees the buffer of every struct, live or not, once. */
    method FreeAll(heap: Heap)
      requires Valid() && owner.Keys <= heap.live
      modifies heap`live
      ensures heap.live == old(Others(heap))
    {
      for i := 0 to |structs|
        invariant Others(heap) == old(Others(heap))
        invariant forall o | o in owner :: o in heap.live <==> owner[o] >= i
      {
        if structs[i].buffer != null {
          heap.Free(structs[i].buffer);
        }
      }
    }
  }

  /** The calls that use the pool; a slot the caller does not hold is left alone. */
  datatype Call =
    | GetBuilder
    | AppendTo(slot: nat, piece: Piece)
    | Release(slot: nat)
    | FormatEntryOf(e: EntryRec, env: Env)
  {
    predicate Fits() {
      FormatEntryOf? ==> -0x8000_0000 <= e.prival < 0x8000_0000
    }

    predicate Takes() {
      GetBuilder? || FormatEntryOf?
    }

    /** What a builder holds when it is handed out. */
    function FirstText(): Str {
      if FormatEntryOf? then Line(Rendered(e, env)) else []
    }
  }

  /** What the caller sees: how the search for a builder ended; an append with what it added, all of it or less; a slot
      given back; or a slot that is not the caller's. */
  datatype Result = Builder(outcome: Outcome) | Wrote(ok: bool, left: Str) | Freed | NotHeld {
    predicate IsRefusal() {
      (Builder? && !outcome.Got?) || (Wrote? && !ok)
    }

    predicate IsLeak() {
      Builder? && outcome.Leaked?
    }
  }

  /** The text of every builder that somebody holds, and the slots that stay taken although nobody holds them. */
  datatype Book = Book(held: map<nat, Str>, lost: set<nat>) {
    predicate Taken(s: nat) {
      s in held || s in lost
    }

    /** The least slot that is not taken. */
    predicate Next(slot: nat) {
      !Taken(slot) && forall s: nat | s < slot :: Taken(s)
    }

    /** What a call may answer. */
    predicate Possible(call: Call, result: Result) {
      match call
      case GetBuilder =>
        result.Builder? && !result.outcome.Leaked? && (result.outcome.Got? ==> Next(result.outcome.slot))
      case FormatEntryOf(_, _) =>
        result.Builder? && (!result.outcome.Denied? ==> Next(result.outcome.slot))
      case AppendTo(s, piece) =>
        if s !in held then result == NotHeld
        else result.Wrote? && if result.ok then result.left == piece.Rendering()
                              else result.left == [] || piece.MayLeave(result.left)
      case Release(s) => result == if s in held then Freed else NotHeld
    }

    /** What then is held and lost. */
    function Note(call: Call, result: Result): Book {
      match result
      case Builder(Got(slot)) => this.(held := held[slot := call.FirstText()])
      case Builder(Leaked(slot)) => this.(lost := lost + {slot})
      case Wrote(_, left) =>
        if call.AppendTo? && call.slot in held then this.(held := held[call.slot := held[call.slot] + left]) else this
      case Freed => if call.Release? then this.(held := held - {call.slot}) else this
      case _ => this
    }
  }

  /** The book after the calls that have answered so far. */
  function After(calls: seq<Call>, results: seq<Result>): Book
    requires |results| <= |calls|
  {
    if results == [] then Book(map[], {})
    else
      var n := |results| - 1;
      After(calls, results[..n]).Note(calls[n], results[n])
  }

  ghost predicate Legal(calls: seq<Call>, results: seq<Result>)
    requires |results| <= |calls|
  {
    forall i | 0 <= i < |results| :: After(calls, results[..i]).Possible(calls[i], results[i])
  }

  function Refusals(results: seq<Result>): nat {
    if results == [] then 0
    else Refusals(results[..|results| - 1]) + if results[|results| - 1].IsRefusal() then 1 else 0
  }

  function Leaks(results: seq<Result>): nat {
    if results == [] then 0
    else Leaks(results[..|results| - 1]) + if results[|results| - 1].IsLeak() then 1 else 0
  }

  lemma OneAnswerMore(calls: seq<Call>, results: seq<Result>, result: Result)
    requires |results| < |calls| && Legal(calls, results)
    requires After(calls, results).Possible(calls[|results|], result)
    ensures Legal(calls, results + [result])
    ensures After(calls, results + [result]) == After(calls, results).Note(calls[|results|], result)
    ensures Refusals(results + [result]) == Refusals(results) + if result.IsRefusal() then 1 else 0
  {
    var more := results + [result];
    assert more[..|results|] == results;
    forall i | 0 <= i < |more|
      ensures After(calls, more[..i]).Possible(calls[i], more[i])
    {
      assert more[..i] == results[..i] || i == |results|;
    }
  }

  lemma Earlier(calls: seq<Call>, results: seq<Result>)
    requires 0 < |results| <= |calls| && Legal(calls, results)
    ensures var n := |results| - 1;
            var before := After(calls, results[..n]);
            Legal(calls, results[..n]) && before.Possible(calls[n], results[n])
  {
    var n := |results| - 1;
    assert forall i | 0 <= i < n :: results[..n][..i] == results[..i];
  }

  lemma NoteLost(book: Book, call: Call, result: Result)
    requires book.Possible(call, result)
    ensures |book.Note(call, result).lost| == |book.lost| + if result.IsLeak() then 1 else 0
  {
  }

  /** Slots are lost by failed formats alone, one by each. */
  lemma {:induction false} LostExactly(calls: seq<Call>, results: seq<Result>)
    requires |results| <= |calls| && Legal(calls, results)
    ensures |After(calls, results).lost| == Leaks(results) <= Refusals(results)
  {
    if results != [] {
      var n := |results| - 1;
      Earlier(calls, results);
      LostExactly(calls, results[..n]);
      NoteLost(After(calls, results[..n]), calls[n], results[n]);
    }
  }

  /** What the calls since a slot was last handed out have put into its builder. */
  function Written(calls: seq<Call>, results: seq<Result>, s: nat): Str
    requires |results| <= |calls|
  {
    if results == [] then []
    else
      var n := |results| - 1;
      var before := Written(calls, results[..n], s);
      match results[n]
      case Builder(Got(slot)) => if slot == s then calls[n].FirstText() else before
      case Wrote(_, left) => if calls[n].AppendTo? && calls[n].slot == s then before + left else before
      case _ => before
  }

  /** The book is what it should be: the text of a held builder depends on the calls to its own slot alone. */
  lemma {:induction false} HeldText(calls: seq<Call>, results: seq<Result>, s: nat)
    requires |results| <= |calls| && Legal(calls, results) && s in After(calls, results).held
    ensures After(calls, results).held[s] == Written(calls, results, s)
  {
    if results != [] {
      var n := |results| - 1;
      Earlier(calls, results);
      if s in After(calls, results[..n]).held {
        HeldText(calls, results[..n], s);
      }
    }
  }

  /** The i-th call was handed the slot, and it has not been given back since. */
  predicate HeldSince(calls: seq<Call>, results: seq<Result>, s: nat, i: nat)
    requires |results| <= |calls|
  {
    && i < |results| && results[i] == Builder(Got(s))
    && forall k | i < k < |results| :: !(calls[k] == Release(s) && results[k] == Freed)
  }

  lemma HeldSinceStep(calls: seq<Call>, results: seq<Result>, s: nat)
    requires 0 < |results| <= |calls|
    ensures var n := |results| - 1;
            (exists i: nat :: HeldSince(calls, results, s, i)) <==>
              results[n] == Builder(Got(s))
              || ((exists i: nat :: HeldSince(calls, results[..n], s, i))
                  && !(calls[n] == Release(s) && results[n] == Freed))
  {
    var n := |results| - 1;
    var front := results[..n];
    if i: nat :| HeldSince(calls, results, s, i) && i < n {
      assert HeldSince(calls, front, s, i);
    }
    if i: nat :| HeldSince(calls, front, s, i) && !(calls[n] == Release(s) && results[n] == Freed) {
      assert HeldSince(calls, results, s, i);
    }
    if results[n] == Builder(Got(s)) {
      assert HeldSince(calls, results, s, n);
    }
  }

  lemma LeakedStep(results: seq<Result>, s: nat)
    requires results != []
    ensures var n := |results| - 1;
            Builder(Leaked(s)) in results <==> results[n] == Builder(Leaked(s)) || Builder(Leaked(s)) in results[..n]
  {
  }

  /** Held are just the slots that some call was handed and no later one gave back; lost are just those of formats that
      failed half way. */
  lemma {:induction false} HeldExactly(calls: seq<Call>, results: seq<Result>, s: nat)
    requires |results| <= |calls| && Legal(calls, results)
    ensures s in After(calls, results).held <==> exists i: nat :: HeldSince(calls, results, s, i)
    ensures s in After(calls, results).lost <==> Builder(Leaked(s)) in results
  {
    if results != [] {
      var n := |results| - 1;
      Earlier(calls, results);
      HeldExactly(calls, results[..n], s);
      NoteHeld(After(calls, results[..n]), calls[n], results[n], s);
      HeldSinceStep(calls, results, s);
      LeakedStep(results, s);
    }
  }

  lemma NoteHeld(book: Book, call: Call, result: Result, s: nat)
    requires book.Possible(call, result)
    ensures s in book.Note(call, result).held
       <==> result == Builder(Got(s)) || (s in book.held && !(call == Release(s) && result == Freed))
    ensures s in book.Note(call, result).lost <==> result == Builder(Leaked(s)) || s in book.lost
  {
  }

  /** No slot is handed out twice: between two calls that get the same one, somebody who held it gave it back. */
  lemma NoSlotTwice(calls: seq<Call>, results: seq<Result>, i: nat, j: nat, s: nat)
    requires |results| <= |calls| && Legal(calls, results) && i < j < |results|
    requires results[i] in {Builder(Got(s)), Builder(Leaked(s))} && results[j] in {Builder(Got(s)), Builder(Leaked(s))}
    ensures exists k | i < k < j :: calls[k] == Release(s) && results[k] == Freed
    ensures results[i] == Builder(Got(s))
  {
    var front := results[..j];
    LegalFront(calls, results, j);
    HeldExactly(calls, front, s);
    assert After(calls, front).Possible(calls[j], results[j]);
    assert front[i] == results[i];
    if results[i] == Builder(Got(s)) {
      assert !HeldSince(calls, front, s, i);
    }
  }

  lemma LegalFront(calls: seq<Call>, results: seq<Result>, n: nat)
    requires n <= |results| <= |calls| && Legal(calls, results)
    ensures Legal(calls, results[..n])
  {
    assert forall i | 0 <= i < n :: results[..n][..i] == results[..i];
  }

  /** The slots that are live are those in the book, and held builders hold their texts. */
  ghost predicate Shows(pool: Pool, book: Book)
    reads pool, pool.structs, set b | b in pool.structs && b.buffer != null :: b.buffer
  {
    Shared(pool.live, book.held.Keys, book.lost) && pool.Texts(book.held)
  }

  lemma NoteWrote(book: Book, slot: nat, piece: Piece, ok: bool, left: Str)
    requires slot in book.held
    ensures book.Note(AppendTo(slot, piece), Wrote(ok, left))
         == Book(book.held[slot := book.held[slot] + left], book.lost)
  {
  }

  /** One call of any kind. */
  method AnyStep(pool: Pool, heap: Heap, call: Call, book: Book) returns (result: Result)
    requires pool.Valid() && pool.owner.Keys <= heap.live && Shows(pool, book) && call.Fits()
    modifies pool, pool.structs, pool.owner.Keys, heap
    ensures pool.Went(heap) && heap.refusals == old(heap.refusals) + if result.IsRefusal() then 1 else 0
    ensures book.Possible(call, result) && Shows(pool, book.Note(call, result))
  {
    match call {
      case AppendTo(slot, piece) =>
        if slot !in book.held {
          return NotHeld;
        }
        var ok, left := pool.AppendBeside(heap, slot, piece, book.held);
        NoteWrote(book, slot, piece, ok, left);
        result := Wrote(ok, left);
      case Release(slot) =>
        if slot !in book.held {
          return NotHeld;
        }
        NoteFreed(pool.live, slot, book);
        pool.Destroy(slot);
        assert pool.Texts(book.held - {slot});
        result := Freed;
      case GetBuilder =>
        result := GetHeld(pool, heap, book);
      case FormatEntryOf(e, env) =>
        result := FormatHeld(pool, heap, e, env, book);
    }
  }

  lemma NextIsClear(live: seq<bool>, book: Book)
    requires Shared(live, book.held.Keys, book.lost)
    ensures book.Next(FirstClear(live))
  {
    assert forall s: nat | s < |live| :: book.Taken(s) <==> live[s];
  }

  lemma NoteBuilder(before: seq<bool>, after: seq<bool>, book: Book, call: Call, outcome: Outcome)
    requires Shared(before, book.held.Keys, book.lost) && call.Takes() && (outcome.Leaked? ==> call.FormatEntryOf?)
    requires if outcome.Denied? then Grew(before, after) else Took(before, after, outcome.slot)
    ensures var book' := book.Note(call, Builder(outcome));
            && book.Possible(call, Builder(outcome)) && Shared(after, book'.held.Keys, book'.lost)
            && book'.held == if outcome.Got? then book.held[outcome.slot := call.FirstText()] else book.held
  {
    NextIsClear(before, book);
  }

  lemma NoteFreed(before: seq<bool>, slot: nat, book: Book)
    requires Shared(before, book.held.Keys, book.lost) && slot in book.held
    ensures var book' := book.Note(Release(slot), Freed);
            && book' == Book(book.held - {slot}, book.lost)
            && slot < |before| && Shared(before[slot := false], book'.held.Keys, book'.lost)
  {
  }

  method GetHeld(pool: Pool, heap: Heap, ghost book: Book) returns (result: Result)
    requires pool.Valid() && pool.owner.Keys <= heap.live && Shows(pool, book)
    modifies pool, pool.structs, heap
    ensures pool.Went(heap) && heap.refusals == old(heap.refusals) + if result.IsRefusal() then 1 else 0
    ensures book.Possible(GetBuilder, result) && Shows(pool, book.Note(GetBuilder, result))
  {
    var b, slot := pool.NewBeside(heap, book.held);
    result := Builder(if b == null then Denied else Got(slot));
    NoteBuilder(old(pool.live), pool.live, book, GetBuilder, result.outcome);
    if b != null {
      pool.OneText(book.held, slot, []);
    }
  }

  method FormatHeld(pool: Pool, heap: Heap, e: EntryRec, env: Env, ghost book: Book) returns (result: Result)
    requires pool.Valid() && pool.owner.Keys <= heap.live && Shows(pool, book) && -0x8000_0000 <= e.prival < 0x8000_0000
    modifies pool, pool.structs, pool.owner.Keys, heap
    ensures pool.Went(heap) && heap.refusals == old(heap.refusals) + if result.IsRefusal() then 1 else 0
    ensures book.Possible(FormatEntryOf(e, env), result) && Shows(pool, book.Note(FormatEntryOf(e, env), result))
  {
    var outcome := pool.FormatBeside(heap, e, env, book.held);
    result := Builder(outcome);
    NoteBuilder(old(pool.live), pool.live, book, FormatEntryOf(e, env), outcome);
    if outcome.Got? {
      pool.OneText(book.held, outcome.slot, Line(Rendered(e, env)));
    }
  }

  /** Every live slot is held by some caller or lost, never both. */
  ghost predicate Shared(live: seq<bool>, held: set<nat>, lost: set<nat>) {
    held !! lost && forall s: nat :: s in held || s in lost <==> s < |live| && live[s]
  }

  lemma {:induction false} LiveCount(live: seq<bool>, taken: set<nat>)
    requires forall s: nat :: s in taken <==> s < |live| && live[s]
    ensures Slab.Count(live) == |taken|
  {
    if live == [] {
      assert taken == {};
    } else {
      var n := |live| - 1;
      var front, last := live[..n], live[n];
      LiveCount(front, taken - {n});
      Slab.CountSnoc(front, last);
      assert live == front + [last];
    }
  }

  /** Any run of calls, from a pool in which no slot is live: every answer is a possible one, and at the end the live
      slots are those held and those lost, each builder that is held has the text the book gives, and as many
      allocations were refused as calls failed. */
  method RunCalls(pool: Pool, heap: Heap, calls: seq<Call>) returns (results: seq<Result>)
    requires pool.Valid() && pool.owner.Keys <= heap.live && (forall i | 0 <= i < |calls| :: calls[i].Fits())
    requires forall s | 0 <= s < |pool.live| :: !pool.live[s]
    modifies pool, pool.structs, pool.owner.Keys, heap
    ensures pool.Went(heap) && |results| == |calls| && Legal(calls, results) && Shows(pool, After(calls, results))
    ensures heap.refusals == old(heap.refusals) + Refusals(results)
  {
    results := [];
    var book := Book(map[], {});
    for i := 0 to |calls|
      invariant |results| == i && Legal(calls, results) && book == After(calls, results)
      invariant pool.Went(heap) && Shows(pool, book)
      invariant heap.refusals == old(heap.refusals) + Refusals(results)
    {
      var result := AnyStep(pool, heap, calls[i], book);
      OneAnswerMore(calls, results, result);
      book := book.Note(calls[i], result);
      results := results + [result];
    }
  }

  /** A whole life of the pool. The slots still taken at the end are those held and one for each failed format; tearing
      the pool down frees every buffer, whoever held it. */
  method AnyRun(slotsPerPage: nat, initialSize: nat, calls: seq<Call>)
    returns (results: seq<Result>, live: seq<bool>, ghost refused: nat, ghost left: set<object>)
    requires slotsPerPage > 0 && initialSize > 0 && forall i | 0 <= i < |calls| :: calls[i].Fits()
    ensures |results| == |calls| && Legal(calls, results) && refused == Refusals(results) && left == {}
    ensures Shared(live, After(calls, results).held.Keys, After(calls, results).lost)
    ensures Slab.Count(live) == |After(calls, results).held| + Leaks(results)
  {
    var heap := new Heap();
    var pool := new Pool(slotsPerPage, initialSize);
    results := RunCalls(pool, heap, calls);
    live, refused := pool.live, heap.refusals;
    ghost var book := After(calls, results);
    LiveCount(live, book.held.Keys + book.lost);
    LostExactly(calls, results);
    pool.FreeAll(heap);
    left := heap.live;
  }
}

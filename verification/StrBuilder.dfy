/** The growable buffer of src/strbuilder.c. */
module StringBuilder {
  import opened Bytes
  import opened Memory
  import opened Allocation
  import opened Digits

  class StrBuilder {
    // the slot the struct lies in, which is its identity
    const home: nat
    var buffer: array?<byte>
    var position: nat
    // the size the buffer was first given, how often it has doubled since, the longest length an append has
    // asked for, and the bytes that growth has carried from old buffers to new ones
    ghost var base: nat
    ghost var doublings: nat
    ghost var demand: nat
    ghost var moved: nat

    /** Capacity is a doubling of the first size, is that size or under twice the longest length asked
        for, and growth has moved fewer bytes than the buffer now holds. */
    ghost predicate Valid()
      reads this
    {
      && buffer != null && 0 < base && position <= buffer.Length && position <= demand
      && buffer.Length == Doubled(base, doublings)
      && (buffer.Length == base || buffer.Length < 2 * demand)
      && moved == buffer.Length - base
    }

    /** `strbuilder_init`, run once for each slot of a new page. */
    constructor (home: nat)
      ensures buffer == null && this.home == home
    {
      this.home, buffer := home, null;
      position, base, doublings, demand, moved := 0, 0, 0, 0, 0;
    }

    /** `strbuilder_new` on a slot just taken: an empty builder, over the buffer the slot already had if any. */
    method Open(heap: Heap, size: nat) returns (ok: bool)
      requires size > 0 && (buffer != null ==> Valid())
      modifies this, heap
      ensures ok ==> Valid() && Contents() == []
      ensures old(buffer) != null ==> ok && buffer == old(buffer) && heap.live == old(heap.live)
      ensures old(buffer) == null && ok ==>
                fresh(buffer) && buffer.Length == size && heap.live == old(heap.live) + {buffer}
      ensures !ok ==> unchanged(this) && buffer == null && heap.live == old(heap.live)
      ensures heap.refusals == old(heap.refusals) + if ok then 0 else 1
    {
      if buffer == null {
        buffer := heap.Malloc(size);
        if buffer == null {
          return false;
        }
        base, doublings, demand, moved := size, 0, 0, 0;
      }
      position := 0;
      ok := true;
    }

    ghost function Contents(): Str
      requires Valid()
      reads this, buffer
    {
      buffer[..position]
    }

    ghost predicate Holds(text: Str)
      reads this, buffer
    {
      buffer != null && position <= buffer.Length && buffer[..position] == text
    }

    twostate lemma StillHolds(new text: Str)
      requires old(Holds(text)) && unchanged(this) && unchanged(buffer)
      ensures Holds(text)
    {
    }

    /** A usable builder whose buffer is a live heap block. */
    ghost predicate Ready(heap: Heap)
      reads this, heap`live
    {
      Valid() && buffer in heap.live
    }

    /** Every live heap block but the buffer. */
    ghost function Others(heap: Heap): set<object>
      reads this, heap`live
    {
      heap.live - {buffer}
    }

    /** What every call leaves alone: the first size, the other heap blocks, and the buffer unless it was
        swapped for a fresh one. */
    twostate predicate Kept(heap: Heap)
      reads this, heap`live
    {
      && Ready(heap) && Others(heap) == old(Others(heap))
      && base == old(base) && old(demand) <= demand
      && (buffer == old(buffer) || fresh(buffer))
      && (old(buffer) != null ==> old(buffer.Length) <= buffer.Length)
    }

    method IncreaseSize(heap: Heap) returns (added: nat)
      requires Ready(heap)
      requires buffer.Length < demand
      modifies this, heap
      ensures Kept(heap) && Contents() == old(Contents())
      ensures position == old(position) && demand == old(demand)
      ensures added == 0 ==> buffer == old(buffer)
      ensures added != 0 ==> added == old(buffer.Length) && buffer.Length == 2 * added
      ensures heap.refusals == old(heap.refusals) + if added == 0 then 1 else 0
    {
      var oldSize := buffer.Length;
      var newSize := oldSize * 2;
      var newBuffer := heap.Realloc(buffer, newSize);
      if newBuffer == null {
        return 0;
      }
      doublings := doublings + 1;
      assert newBuffer[..position] == newBuffer[..oldSize][..position];
      moved := moved + oldSize;
      buffer := newBuffer;
      added := oldSize;
    }

    /** The growth loop of an append: doubles until `size` more bytes fit, or an allocation fails. */
    method MakeRoom(heap: Heap, size: nat) returns (ok: bool)
      requires Ready(heap)
      modifies this, heap
      ensures Kept(heap) && Contents() == old(Contents()) && position == old(position)
      ensures demand == Max(old(demand), old(position) + size)
      ensures ok ==> buffer.Length == DoubleUntil(old(buffer.Length), position + size)
      ensures ok ==> position + size <= buffer.Length
      ensures heap.refusals == old(heap.refusals) + if ok then 0 else 1
      ensures old(position) + size <= old(buffer.Length) ==> ok
    {
      var sizeLeft := buffer.Length - position;
      demand := Max(demand, position + size);
      while sizeLeft < size
        invariant Kept(heap) && Contents() == old(Contents()) && position == old(position)
        invariant demand == Max(old(demand), old(position) + size)
        invariant sizeLeft == buffer.Length - position && 0 < buffer.Length
        invariant heap.refusals == old(heap.refusals)
        invariant buffer.Length > old(buffer.Length) ==> old(buffer.Length) < position + size
        invariant DoubleUntil(buffer.Length, position + size) == DoubleUntil(old(buffer.Length), position + size)
        decreases size - sizeLeft
      {
        var sizeAdded := IncreaseSize(heap);
        if sizeAdded == 0 {
          return false;
        }
        sizeLeft := sizeLeft + sizeAdded;
      }
      ok := true;
    }

    method AppendBuffer(heap: Heap, data: Str) returns (ok: bool)
      requires Ready(heap)
      modifies this, buffer, heap
      ensures Kept(heap)
      ensures Contents() == if ok then old(Contents()) + data else old(Contents())
      ensures demand == Max(old(demand), old(position) + |data|)
      ensures ok ==> buffer.Length == DoubleUntil(old(buffer.Length), old(position) + |data|)
      ensures heap.refusals == old(heap.refusals) + if ok then 0 else 1
      ensures old(position) + |data| <= old(buffer.Length) ==> ok
    {
      ok := MakeRoom(heap, |data|);
      if ok {
        MemCopy(buffer, position, data);
        position := position + |data|;
      }
    }

    method AppendChar(heap: Heap, c: byte) returns (ok: bool)
      requires Ready(heap)
      modifies this, buffer, heap
      ensures Kept(heap)
      ensures Contents() == if ok then old(Contents()) + [c] else old(Contents())
      ensures demand == Max(old(demand), old(position) + 1)
      ensures ok ==> buffer.Length == if old(position < buffer.Length) then old(buffer.Length)
                                      else 2 * old(buffer.Length)
      ensures heap.refusals == old(heap.refusals) + if ok then 0 else 1
      ensures old(position) < old(buffer.Length) ==> ok && buffer == old(buffer)
    {
      demand := Max(demand, position + 1);
      if position == buffer.Length {
        var oldSize := IncreaseSize(heap);
        if oldSize == 0 {
          return false;
        }
      }
      buffer[position] := c;
      position := position + 1;
      ok := true;
    }

    /** One byte more in a run of them, of which `sent` have been appended to `front`. */
    method AppendNext(heap: Heap, c: byte, ghost front: Str, ghost sent: Str, ghost start: nat) returns (ok: bool)
      requires Ready(heap) && Contents() == front + sent && start > 0 && buffer.Length == DoubleUntil(start, position)
      modifies this, buffer, heap
      ensures Kept(heap)
      ensures Contents() == if ok then front + (sent + [c]) else front + sent
      ensures ok ==> buffer.Length == DoubleUntil(start, position) && demand == Max(old(demand), position)
      ensures heap.refusals == old(heap.refusals) + if ok then 0 else 1
      ensures old(position) < old(buffer.Length) ==> ok && buffer == old(buffer)
    {
      Regroup(front, sent, [c]);
      OneByteMore(start, position);
      ok := AppendChar(heap, c);
    }

    /** Byte by byte, so a failure may leave a proper prefix of `str` behind. */
    method AppendString(heap: Heap, str: Str) returns (ok: bool)
      requires Ready(heap)
      modifies this, buffer, heap
      ensures Kept(heap)
      ensures ok ==> Contents() == old(Contents()) + str
      ensures !ok ==> old(Contents()) <= Contents() < old(Contents()) + str
      ensures ok ==> demand == Max(old(demand), position)
      ensures heap.refusals == old(heap.refusals) + if ok then 0 else 1
      ensures ok ==> buffer.Length == DoubleUntil(old(buffer.Length), position)
      ensures old(position) + |str| <= old(buffer.Length) ==> ok
    {
      var curr := 0;
      ghost var front, sent := Contents(), [];
      while curr < |str|
        invariant curr <= |str| && sent == str[..curr]
        invariant Kept(heap)
        invariant Contents() == front + sent
        invariant heap.refusals == old(heap.refusals)
        invariant old(position) + curr <= old(buffer.Length) ==> buffer == old(buffer)
        invariant buffer.Length == DoubleUntil(old(buffer.Length), position)
        invariant demand == Max(old(demand), position)
      {
        ok := AppendNext(heap, str[curr], front, sent, old(buffer.Length));
        if !ok {
          PartSent(front, str, curr);
          return;
        }
        sent, curr := sent + [str[curr]], curr + 1;
      }
      ok := true;
    }

    method AppendPositiveInt(heap: Heap, i: int32) returns (ok: bool)
      requires Ready(heap)
      modifies this, buffer, heap
      ensures Kept(heap)
      ensures ok ==> Contents() == old(Contents()) + IntBytes(i)
      ensures ok ==> demand == Max(old(demand), position)
      ensures !ok ==> old(Contents()) <= Contents() < old(Contents()) + IntBytes(i)
      ensures heap.refusals == old(heap.refusals) + if ok then 0 else 1
      ensures ok ==> buffer.Length == DoubleUntil(old(buffer.Length), position)
      ensures old(position) + |IntBytes(i)| <= old(buffer.Length) ==> ok
    {
      if i == 0 {
        ok := AppendChar(heap, ZERO);
        return;
      }
      var digits, digitCount := LeastFirst(i);
      ok := AppendBackwards(heap, digits, DigitBytes(i));
    }

    /** The second loop of the int append: sends the local buffer out from its end. */
    method AppendBackwards(heap: Heap, digits: Str, ghost all: Str) returns (ok: bool)
      requires Ready(heap)
      requires |digits| == |all| && forall k | 0 <= k < |all| :: digits[k] == all[|all| - 1 - k]
      modifies this, buffer, heap
      ensures Kept(heap)
      ensures ok ==> Contents() == old(Contents()) + all && demand == Max(old(demand), position)
      ensures !ok ==> old(Contents()) <= Contents() < old(Contents()) + all
      ensures heap.refusals == old(heap.refusals) + if ok then 0 else 1
      ensures ok ==> buffer.Length == DoubleUntil(old(buffer.Length), position)
      ensures old(position) + |all| <= old(buffer.Length) ==> ok
    {
      var digitCount := |digits|;
      ghost var front, sent := Contents(), [];
      while digitCount > 0
        invariant 0 <= digitCount <= |all| && sent == all[..|all| - digitCount]
        invariant Kept(heap)
        invariant Contents() == front + sent
        invariant heap.refusals == old(heap.refusals)
        invariant old(position) + |all| - digitCount <= old(buffer.Length) ==> buffer == old(buffer)
        invariant buffer.Length == DoubleUntil(old(buffer.Length), position)
        invariant demand == Max(old(demand), position)
      {
        digitCount := digitCount - 1;
        ok := AppendNext(heap, digits[digitCount], front, sent, old(buffer.Length));
        if !ok {
          PartSent(front, all, |sent|);
          return;
        }
        sent := sent + [digits[digitCount]];
      }
      ok := true;
    }

    method Reset()
      requires Valid()
      modifies this`position
      ensures Valid() && Contents() == []
    {
      position := 0;
    }

    method ToCString(heap: Heap) returns (str: array?<byte>)
      requires Valid()
      modifies heap
      ensures str != null ==> fresh(str) && str[..] == Contents() + [NUL]
      ensures heap.live == if str == null then old(heap.live) else old(heap.live) + {str}
      ensures heap.refusals == old(heap.refusals) + if str == null then 1 else 0
    {
      str := heap.Malloc(position + 1);
      if str != null {
        MemCopy(str, 0, buffer[..position]);
        str[position] := NUL;
        assert str[..position] == Contents();
      }
    }
  }

  /** The digit that the loop takes next is the last of those left. */
  lemma NextDigit(all: Str, n: nat, rest: int)
    requires n <= |all| && rest != 0 && DigitBytes(rest) == all[..n]
    ensures n > 0 && DigitBytes(Div10(rest)) == all[..n - 1]
    ensures 0 <= Mod10(rest) + 48 < 256 && all[n - 1] == Mod10(rest) + 48
  {
    var front := DigitBytes(Div10(rest));
    assert |all[..n]| == |front| + 1;
    assert all[..n - 1] == all[..n][..n - 1];
  }

  lemma PartSent(front: Str, all: Str, n: nat)
    requires n < |all|
    ensures front <= front + all[..n] < front + all
  {
  }

  /** The first loop of the int append: fills the local buffer with the digits, least significant first. */
  method LeastFirst(i: int32) returns (digits: Str, digitCount: nat)
    requires i != 0
    ensures digitCount == |digits| == |DigitBytes(i)| <= MAX_INT_SIZE
    ensures forall k | 0 <= k < digitCount :: digits[k] == DigitBytes(i)[digitCount - 1 - k]
  {
    IntFits(i);
    digits, digitCount := [], 0;
    ghost var all := DigitBytes(i);
    var rest: int := i;
    while rest != 0
      invariant digitCount == |digits| <= |all|
      invariant DigitBytes(rest) == all[..|all| - digitCount]
      invariant forall k | 0 <= k < digitCount :: digits[k] == all[|all| - 1 - k]
      decreases if rest >= 0 then rest else -rest
    {
      NextDigit(all, |all| - digitCount, rest);
      var digit: byte := Mod10(rest) + 48;
      digits := digits + [digit];
      digitCount := digitCount + 1;
      rest := Div10(rest);
    }
  }

  // ----- capacity over whole runs

  /** The capacity after appends that ask, in turn, for the lengths `asks`. */
  function RunCapacity(start: nat, asks: seq<nat>): (r: nat)
    requires start > 0
    ensures r > 0
    decreases |asks|
  {
    if asks == [] then start
    else DoubleUntilTwice(start, asks[0], 0); RunCapacity(DoubleUntil(start, asks[0]), asks[1..])
  }

  function Longest(asks: seq<nat>): nat {
    if asks == [] then 0 else Max(asks[0], Longest(asks[1..]))
  }

  lemma {:induction false} DoubleUntilTwice(start: nat, a: nat, b: nat)
    requires start > 0
    ensures DoubleUntil(start, a) > 0
    ensures DoubleUntil(DoubleUntil(start, a), b) == DoubleUntil(start, Max(a, b))
    decreases a - start
  {
    if start < a {
      DoubleUntilTwice(2 * start, a, b);
    }
  }

  lemma OneByteMore(start: nat, position: nat)
    requires start > 0
    ensures var length := DoubleUntil(start, position);
            DoubleUntil(start, position + 1) == if position < length then length else 2 * length
  {
    var k := DoubleUntilSound(start, position);
    GrowFurther(start, position, position + 1);
  }

  lemma GrowFurther(start: nat, a: nat, b: nat)
    requires start > 0 && a <= b
    ensures DoubleUntil(start, a) > 0
    ensures DoubleUntil(DoubleUntil(start, a), b) == DoubleUntil(start, b)
  {
    DoubleUntilTwice(start, a, b);
  }

  /** However a run of appends is cut up, the capacity depends on the longest length asked for alone. */
  lemma {:induction false} RunCapacityIsLongest(start: nat, asks: seq<nat>)
    requires start > 0
    ensures RunCapacity(start, asks) == DoubleUntil(start, Longest(asks))
    decreases |asks|
  {
    if asks != [] {
      var next := DoubleUntil(start, asks[0]);
      DoubleUntilTwice(start, asks[0], Longest(asks[1..]));
      RunCapacityIsLongest(next, asks[1..]);
    }
  }

  // ----- whole runs of appends

  /** What one of the four appends is given, and what it puts in the buffer. */
  datatype Piece = Data(data: Str) | Char(c: byte) | Text(text: Str) | Number(i: int32) {
    function Rendering(): Str {
      match this
      case Data(d) => d
      case Char(c) => [c]
      case Text(s) => s
      case Number(i) => IntBytes(i)
    }

    /** What a failed append may have put there: nothing, or a proper prefix if it goes byte by byte. */
    predicate MayLeave(left: Str) {
      left < Rendering() && (Data? || Char? ==> left == [])
    }
  }

  lemma Behind(front: Str, whole: Str)
    ensures front <= whole ==> whole == front + whole[|front|..]
  {
  }

  /** Any of the four appends. */
  method AppendPiece(heap: Heap, b: StrBuilder, piece: Piece) returns (ok: bool, left: Str)
    requires b.Ready(heap)
    modifies b, b.buffer, heap
    ensures b.Kept(heap) && heap.refusals == old(heap.refusals) + if ok then 0 else 1
    ensures b.Contents() == old(b.Contents()) + left
    ensures if ok then left == piece.Rendering() else left == [] || piece.MayLeave(left)
    ensures ok ==> b.buffer.Length == DoubleUntil(old(b.buffer.Length), b.position)
  {
    var before := b.position;
    match piece {
      case Data(data) => ok := b.AppendBuffer(heap, data);
      case Char(c) => ok := b.AppendChar(heap, c);
      case Text(text) => ok := b.AppendString(heap, text);
      case Number(i) => ok := b.AppendPositiveInt(heap, i);
    }
    left := b.buffer[before..b.position];
    Behind(old(b.Contents()), b.Contents());
    assert left == b.Contents()[before..];
  }

  function Concat(pieces: seq<Piece>): Str {
    if pieces == [] then [] else pieces[0].Rendering() + Concat(pieces[1..])
  }

  /** The lengths that the appends ask for in turn, starting from a length. */
  function Asks(from: nat, pieces: seq<Piece>): seq<nat>
    decreases |pieces|
  {
    if pieces == [] then []
    else var n := from + |pieces[0].Rendering()|; [n] + Asks(n, pieces[1..])
  }

  lemma {:induction false} AsksGrow(from: nat, pieces: seq<Piece>)
    ensures pieces != [] ==> Longest(Asks(from, pieces)) == from + |Concat(pieces)|
    decreases |pieces|
  {
    if |pieces| > 1 {
      var n := from + |pieces[0].Rendering()|;
      AsksGrow(n, pieces[1..]);
      assert Asks(from, pieces)[1..] == Asks(n, pieces[1..]);
    } else if |pieces| == 1 {
      assert Asks(from, pieces)[1..] == [];
      assert Concat(pieces[1..]) == [];
    }
  }

  /** The capacity that a run of appends leaves is the one that its whole length needs. */
  lemma CapacityOfRun(start: nat, from: nat, pieces: seq<Piece>)
    requires 0 < start && from <= start
    ensures RunCapacity(start, Asks(from, pieces)) == DoubleUntil(start, from + |Concat(pieces)|)
  {
    RunCapacityIsLongest(start, Asks(from, pieces));
    AsksGrow(from, pieces);
  }

  lemma {:induction false} ConcatSnoc(pieces: seq<Piece>, i: nat)
    requires i < |pieces|
    ensures Concat(pieces[..i + 1]) == Concat(pieces[..i]) + pieces[i].Rendering()
    decreases |pieces|
  {
    if i == 0 {
      assert pieces[..1][1..] == [];
    } else {
      assert pieces[..i + 1][1..] == pieces[1..][..i] && pieces[..i][1..] == pieces[1..][..i - 1];
      ConcatSnoc(pieces[1..], i - 1);
    }
  }

  /** The i-th append of a run. */
  method AppendNth(heap: Heap, b: StrBuilder, pieces: seq<Piece>, i: nat, ghost front: Str, ghost start: nat)
    returns (ok: bool, left: Str)
    requires b.Ready(heap) && i < |pieces| && start > 0
    requires b.Contents() == front + Concat(pieces[..i]) && b.buffer.Length == DoubleUntil(start, b.position)
    modifies b, b.buffer, heap
    ensures b.Kept(heap) && heap.refusals == old(heap.refusals) + if ok then 0 else 1
    ensures b.Contents() == front + if ok then Concat(pieces[..i + 1]) else Concat(pieces[..i]) + left
    ensures !ok ==> left == [] || pieces[i].MayLeave(left)
    ensures ok ==> b.buffer.Length == DoubleUntil(start, b.position)
  {
    ghost var position := b.position;
    ConcatSnoc(pieces, i);
    ok, left := AppendPiece(heap, b, pieces[i]);
    Regroup(front, Concat(pieces[..i]), left);
    if ok {
      GrowFurther(start, position, b.position);
    }
  }

  /** Any run of appends: if all succeed the contents have grown by the concatenation, and the capacity is the one that
      the longest length asked for needs; if one is refused, by what came before it and what it left. */
  method AppendAll(heap: Heap, b: StrBuilder, pieces: seq<Piece>) returns (done: nat, left: Str)
    requires b.Ready(heap)
    modifies b, b.buffer, heap
    ensures b.Kept(heap) && done <= |pieces|
    ensures heap.refusals == old(heap.refusals) + if done == |pieces| then 0 else 1
    ensures b.Contents() == old(b.Contents()) + (Concat(pieces[..done]) + left)
    ensures if done == |pieces| then left == [] else left == [] || pieces[done].MayLeave(left)
    ensures done == |pieces| ==> b.buffer.Length == DoubleUntil(old(b.buffer.Length), b.position)
    ensures done == |pieces| ==> b.buffer.Length == RunCapacity(old(b.buffer.Length), Asks(old(b.position), pieces))
  {
    ghost var front, start := b.Contents(), b.buffer.Length;
    done := 0;
    while done < |pieces|
      invariant done <= |pieces|
      invariant b.Kept(heap) && heap.refusals == old(heap.refusals)
      invariant b.Contents() == front + Concat(pieces[..done])
      invariant b.buffer.Length == DoubleUntil(start, b.position)
    {
      var ok;
      ok, left := AppendNth(heap, b, pieces, done, front, start);
      if !ok {
        return;
      }
      done := done + 1;
    }
    left := [];
    assert pieces[..done] == pieces && Concat(pieces) + left == Concat(pieces);
    CapacityOfRun(start, old(b.position), pieces);
  }
}

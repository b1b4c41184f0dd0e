/** The NUL-separated list of event sources (a REG_MULTI_SZ value) that src/config/wel_supported.c edits in place. */
module MultiSz {
  import opened Allocation
  import opened Bytes

  type Wide = w: nat | w < 0x1_0000

  type Wides = seq<Wide>

  /** A name as the list can hold it. */
  predicate Listable(name: Wides) {
    name != [] && 0 !in name
  }

  predicate WellFormed(names: seq<Wides>) {
    forall i | 0 <= i < |names| :: Listable(names[i])
  }

  /** Each name with its NUL, then the NUL that ends the list. */
  function Encode(names: seq<Wides>): (value: Wides)
    ensures |value| > 0
  {
    if names == [] then [0] else names[0] + [0] + Encode(names[1..])
  }

  lemma EncodeCons(name: Wides, names: seq<Wides>)
    ensures Encode([name] + names) == name + [0] + Encode(names)
  {
    assert ([name] + names)[1..] == names;
  }

  /** The character where a name would start is NUL exactly at the end of the list. */
  lemma Ends(names: seq<Wides>)
    requires WellFormed(names)
    ensures Encode(names)[0] == 0 <==> names == []
  {
    if names != [] {
      assert Encode(names)[0] == names[0][0] && names[0][0] in names[0];
    }
  }

  /** From one name to the next. */
  lemma Skip(value: Wides, at: nat, names: seq<Wides>)
    requires at <= |value| && value[at..] == Encode(names) && names != []
    ensures var end := at + |names[0]|;
            end + 1 < |value| && value[at..end] == names[0] && value[end + 1..] == Encode(names[1..])
  {
    var n := |names[0]|;
    assert Encode(names)[..n] == names[0] && Encode(names)[n + 1..] == Encode(names[1..]);
    assert value[at..at + n] == value[at..][..n] && value[at + n + 1..] == value[at..][n + 1..];
  }

  /** How far the first NUL is. */
  function Length(s: Wides): (n: nat)
    ensures n <= |s| && (n < |s| ==> s[n] == 0)
    ensures forall i | 0 <= i < n :: s[i] != 0
  {
    if s == [] || s[0] == 0 then 0 else 1 + Length(s[1..])
  }

  /** The names a reader of the value sees: those up to the first empty one. */
  function Names(value: Wides): seq<Wides>
    decreases |value|
  {
    var n := Length(value);
    if n == 0 || n == |value| then [] else [value[..n]] + Names(value[n + 1..])
  }

  lemma LengthIs(name: Wides, rest: Wides)
    requires 0 !in name
    ensures Length(name + [0] + rest) == |name|
  {
    var s := name + [0] + rest;
    assert forall i | 0 <= i < |name| :: s[i] == name[i] && name[i] in name;
    assert s[|name|] == 0;
  }

  lemma NamesStep(name: Wides, rest: Wides)
    requires Listable(name)
    ensures Names(name + [0] + rest) == [name] + Names(rest)
  {
    LengthIs(name, rest);
    var s := name + [0] + rest;
    assert s[..|name|] == name && s[|name| + 1..] == rest;
  }

  /** A reader of an encoded list gets the list back. */
  lemma {:induction false} EncodeRoundTrip(names: seq<Wides>)
    requires WellFormed(names)
    ensures Names(Encode(names)) == names
  {
    if names != [] {
      EncodeRoundTrip(names[1..]);
      NamesStep(names[0], Encode(names[1..]));
    }
  }

  /** `wcslen` of the string at an offset. */
  method WideLength(value: Wides, at: nat, ghost name: Wides, ghost rest: Wides) returns (n: nat)
    requires at <= |value| && value[at..] == name + [0] + rest && 0 !in name
    ensures n == |name|
  {
    assert forall i | 0 <= i <= |name| :: value[at..][i] == (name + [0])[i];
    assert forall i | 0 <= i < |name| :: (name + [0])[i] == name[i] && name[i] in name;
    n := 0;
    while value[at + n] != 0
      invariant n <= |name|
      decreases |name| - n
    {
      n := n + 1;
    }
  }

  /** `wcsncmp` of the string at an offset with a NUL-terminated one, terminator included. */
  method SameString(value: Wides, at: nat, str: Wides, ghost name: Wides, ghost rest: Wides) returns (same: bool)
    requires at <= |value| && value[at..] == name + [0] + rest && 0 !in name && 0 !in str
    ensures same <==> name == str
  {
    ghost var held, wanted := name + [0], str + [0];
    assert forall i | 0 <= i <= |name| :: value[at..][i] == held[i];
    var i := 0;
    while i < |str| + 1
      invariant i <= |name| + 1 && i <= |str| + 1
      invariant forall k | 0 <= k < i :: held[k] == wanted[k]
      invariant i <= |name| || i == |str| + 1
    {
      var want := if i < |str| then str[i] else 0;
      assert value[at..][i] == held[i];
      if value[at + i] != want {
        assert held[i] != wanted[i];
        return false;
      }
      assert i == |name| ==> want == 0 && i == |str|;
      i := i + 1;
    }
    assert held[|str|] == 0;
    assert |name| == |str|;
    assert forall k | 0 <= k < |name| :: name[k] == held[k] == wanted[k] == str[k];
    same := true;
  }

  /** `multi_sz_contains` never reads past the list and finds exactly its members. */
  method Contains(value: Wides, str: Wides, ghost names: seq<Wides>) returns (found: bool)
    requires WellFormed(names) && value == Encode(names) && 0 !in str
    ensures found <==> str in names
  {
    var current: nat := 0;
    ghost var left := names;
    Ends(left);
    while value[current] != 0
      invariant current < |value| && value[current..] == Encode(left)
      invariant value[current] == value[current..][0] && (value[current] == 0 <==> left == [])
      invariant WellFormed(left) && (str in left <==> str in names)
      decreases |left|
    {
      ghost var rest := Encode(left[1..]);
      var same := SameString(value, current, str, left[0], rest);
      if same {
        return true;
      }
      var len := WideLength(value, current, left[0], rest);
      Skip(value, current, left);
      current := current + len + 1;
      left := left[1..];
      Ends(left);
    }
    found := false;
  }

  /** The list-building of `add_event_source`: the new value, or no value if the memory is not there. */
  method Add(heap: Heap, value: Wides, name: Wides, ghost names: seq<Wides>) returns (stored: Option<Wides>)
    requires WellFormed(names) && value == Encode(names) && 0 !in name
    modifies heap`refusals
    ensures heap.refusals == old(heap.refusals) + if stored.Some? then 0 else 1
    ensures name in names ==> stored.Some?
    ensures stored.Some? ==> stored.value == if name in names then value else name + [0] + value
    ensures stored.Some? && name != [] ==> stored.value == Encode(if name in names then names else [name] + names)
  {
    var held := Contains(value, name, names);
    if held {
      return Some(value);
    }
    var ok := heap.Granted();
    if !ok {
      return None;
    }
    var longer := new Wide[|name| + 1 + |value|];
    forall i | 0 <= i <= |name| {
      longer[i] := if i < |name| then name[i] else 0;
    }
    forall i | 0 <= i < |value| {
      longer[|name| + 1 + i] := value[i];
    }
    assert longer[..] == name + [0] + value;
    EncodeCons(name, names);
    stored := Some(longer[..]);
  }

  /** The list without a name. */
  function Without(names: seq<Wides>, name: Wides): (rest: seq<Wides>)
    ensures name !in rest
  {
    if names == [] then []
    else if names[0] == name then Without(names[1..], name)
    else [names[0]] + Without(names[1..], name)
  }

  /** Leaving a name out goes name by name: the others stay, all of them and in their order. */
  lemma {:induction false} WithoutJoins(front: seq<Wides>, back: seq<Wides>, name: Wides, other: Wides)
    ensures Without(front + back, name) == Without(front, name) + Without(back, name)
    ensures Without([other], name) == if other == name then [] else [other]
  {
    if front == [] {
      assert front + back == back;
    } else {
      assert (front + back)[1..] == front[1..] + back;
      WithoutJoins(front[1..], back, name, other);
    }
  }

  lemma {:induction false} WithoutWellFormed(names: seq<Wides>, name: Wides)
    requires WellFormed(names)
    ensures WellFormed(Without(names, name))
  {
    if names != [] {
      WithoutWellFormed(names[1..], name);
    }
  }

  /** A reader does not see what lies behind a list. */
  lemma {:induction false} ReadsBefore(names: seq<Wides>, behind: Wides)
    requires WellFormed(names)
    ensures Names(Encode(names) + behind) == names
  {
    if names == [] {
      assert Length(Encode(names) + behind) == 0;
    } else {
      ReadsBefore(names[1..], behind);
      NamesStep(names[0], Encode(names[1..]) + behind);
      assert Encode(names) + behind == names[0] + [0] + (Encode(names[1..]) + behind);
    }
  }

  function Count(names: seq<Wides>, name: Wides): (c: nat)
    ensures c > 0 <==> name in names
  {
    if names == [] then 0 else (if names[0] == name then 1 else 0) + Count(names[1..], name)
  }

  lemma OneMore(c: nat, unit: nat)
    ensures (1 + c) * unit == unit + c * unit
  {
  }

  /** Each time the name is left out the value is shorter by the name and its NUL. */
  lemma {:induction false} WithoutLength(names: seq<Wides>, name: Wides)
    ensures |Encode(Without(names, name))| + Count(names, name) * (|name| + 1) == |Encode(names)|
  {
    if names != [] {
      WithoutLength(names[1..], name);
      if names[0] != name {
        EncodeCons(names[0], Without(names[1..], name));
      } else {
        OneMore(Count(names[1..], name), |name| + 1);
      }
    }
  }

  /** The test for a list that holds this one name. */
  method IsOnly(value: Wides, name: Wides, ghost names: seq<Wides>) returns (only: bool)
    requires WellFormed(names) && value == Encode(names) && 0 !in name
    ensures only <==> names == [name]
  {
    EncodeCons(name, []);
    assert [name] + [] == [name];
    only := |value| == |name| + 2;
    if only {
      ghost var rest := Encode(names[1..]);
      only := SameString(value, 0, name, names[0], rest);
      assert only ==> |rest| == 1;
      assert |rest| == 1 ==> names == [names[0]];
    }
  }

  method CopyName(value: Wides, at: nat, len: nat, to: array<Wide>, current: nat)
    requires at + len <= |value| && current + len + 1 <= to.Length
    modifies to
    ensures to[..current + len + 1] == old(to[..current]) + value[at..at + len] + [0]
  {
    forall i | 0 <= i < len {
      to[current + i] := value[at + i];
    }
    to[current + len] := 0;
  }

  lemma Regroup(front: Wides, name: Wides, others: seq<Wides>)
    ensures front + Encode([name] + others) == front + name + [0] + Encode(others)
  {
    EncodeCons(name, others);
  }

  /** The loop that copies every name but one, and then the NUL that ends the list. */
  method CopyOthers(value: Wides, name: Wides, to: array<Wide>, ghost names: seq<Wides>) returns (current: nat)
    requires WellFormed(names) && value == Encode(names) && 0 !in name
    requires |Encode(Without(names, name))| <= to.Length
    modifies to
    ensures current == |Encode(Without(names, name))|
    ensures to[..current] == Encode(Without(names, name))
  {
    ghost var all := Encode(Without(names, name));
    var at: nat := 0;
    current := 0;
    ghost var left, done: Wides := names, [];
    Ends(left);
    while value[at] != 0
      invariant at < |value| && value[at..] == Encode(left)
      invariant value[at] == value[at..][0] && (value[at] == 0 <==> left == [])
      invariant WellFormed(left)
      invariant done + Encode(Without(left, name)) == all
      invariant |done| == current < |all| && to[..current] == done
      decreases |left|
    {
      ghost var rest := Encode(left[1..]);
      var same := SameString(value, at, name, left[0], rest);
      var len := WideLength(value, at, left[0], rest);
      Skip(value, at, left);
      if !same {
        Regroup(done, left[0], Without(left[1..], name));
        CopyName(value, at, len, to, current);
        current := current + len + 1;
        done := done + left[0] + [0];
      }
      at := at + len + 1;
      left := left[1..];
      Ends(left);
    }
    to[current] := 0;
    current := current + 1;
  }

  lemma Once(c: nat, unit: nat)
    requires c > 0 && unit > 0
    ensures c * unit >= unit && (c * unit == unit <==> c == 1)
  {
    if c > 1 {
      assert c * unit == unit + (c - 1) * unit;
      assert (c - 1) * unit > 0;
    }
  }

  datatype Removal =
    | WholeTree
    | Untouched
    | NoMemory
    | Stored(value: Wides, filled: nat)

  /** The list-building of `stumpless_remove_wel_event_source_w`. The new value has room for the list with the name left
      out once; what the loop does not fill is whatever the memory held. */
  method Remove(heap: Heap, value: Wides, name: Wides, ghost names: seq<Wides>) returns (r: Removal)
    requires WellFormed(names) && value == Encode(names) && 0 !in name
    modifies heap`refusals
    ensures heap.refusals == old(heap.refusals) + if r.NoMemory? then 1 else 0
    ensures r.WholeTree? <==> names == [] || names == [name]
    ensures r.Untouched? <==> names != [] && name !in names
    ensures r.Stored? ==>
              && |r.value| == |value| - |name| - 1
              && r.filled <= |r.value| && r.value[..r.filled] == Encode(Without(names, name))
              && (r.filled == |r.value| <==> Count(names, name) == 1)
    ensures r.Stored? ==> Names(r.value) == Without(names, name)
  {
    var only := IsOnly(value, name, names);
    if value[0] == 0 || only {
      return WholeTree;
    }
    var held := Contains(value, name, names);
    if !held {
      return Untouched;
    }
    WithoutLength(names, name);
    Once(Count(names, name), |name| + 1);
    var ok := heap.Granted();
    if !ok {
      return NoMemory;
    }
    var shorter := new Wide[|value| - |name| - 1];
    var filled := CopyOthers(value, name, shorter, names);
    r := Stored(shorter[..], filled);
    WithoutWellFormed(names, name);
    ReadsBefore(Without(names, name), shorter[filled..]);
    assert shorter[..] == shorter[..filled] + shorter[filled..];
  }

  /** What a reader finds in the value stored for an absent name: the name put first if and only if it is not empty.
      An empty one hides the whole list. */
  lemma AddedReads(name: Wides, names: seq<Wides>)
    requires WellFormed(names) && 0 !in name
    ensures Names(name + [0] + Encode(names)) == [name] + names <==> name != []
    ensures name == [] ==> Names(name + [0] + Encode(names)) == []
  {
    EncodeRoundTrip(names);
    if name != [] {
      NamesStep(name, Encode(names));
    }
  }

  lemma {:induction false} WithoutAbsent(names: seq<Wides>, name: Wides)
    requires name !in names
    ensures Without(names, name) == names
  {
    if names != [] {
      WithoutAbsent(names[1..], name);
    }
  }

  /** Adding an absent name and removing it again gives the value back, and the new value is exactly full. On an empty
      list the removal drops the whole tree instead. */
  method AddThenRemove(heap: Heap, name: Wides, names: seq<Wides>) returns (back: Option<Wides>)
    requires WellFormed(names) && Listable(name) && name !in names
    modifies heap`refusals
    ensures back.Some? ==> back.value == Encode(names)
    ensures back.Some? <==> names != [] && heap.refusals == old(heap.refusals)
  {
    var added := Add(heap, Encode(names), name, names);
    if added.None? {
      return None;
    }
    var both := [name] + names;
    var r := Remove(heap, added.value, name, both);
    WithoutPrepended(name, names);
    if r.Stored? {
      assert r.filled == |r.value| && r.value[..r.filled] == r.value;
      back := Some(r.value);
    } else {
      assert r.WholeTree? <==> names == [];
      back := None;
    }
  }

  lemma WithoutPrepended(name: Wides, names: seq<Wides>)
    requires name !in names
    ensures Without([name] + names, name) == names && Count([name] + names, name) == 1
  {
    var both := [name] + names;
    assert both[1..] == names;
    WithoutAbsent(names, name);
  }
}

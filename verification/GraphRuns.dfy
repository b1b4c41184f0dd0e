/** Whole runs of calls on an entry and its elements on the heap, tied to the runs of module StructuredData. */
module GraphRuns {
  import opened Bytes
  import opened Records
  import opened Allocation
  import opened StructuredData
  import opened Graph
  import Slab
  import opened Validate

  predicate TextValues(ps: seq<ParamRec>) {
    forall i | 0 <= i < |ps| :: NoNul(ps[i].value)
  }

  /** Values come in as C strings. */
  predicate Callable(c: Call) {
    match c
    case AddElement(e) => TextValues(e.params)
    case SetElement(i, e) => TextValues(e.params)
    case SetValue(e, p, v) => NoNul(v)
    case AddValue(e, p, v) => NoNul(v)
  }

  predicate ValidParam(p: ParamRec) {
    ValidParamName(p.name) && ValidValue(p.value)
  }

  /** Contents that no check refuses. */
  predicate ValidParams(ps: seq<ParamRec>) {
    forall i | 0 <= i < |ps| :: ValidParam(ps[i])
  }

  predicate ValidElement(e: ElementRec) {
    ValidElementName(e.name) && ValidParams(e.params)
  }

  /** A call that only a refused allocation can make fail. */
  predicate Acceptable(es: seq<ElementRec>, c: Call) {
    match c
    case AddElement(e) => ValidElement(e) && !HasElement(es, e.name)
    case SetElement(i, e) => i < |es| && ValidElement(e) && !HasElement(es, e.name)
    case SetValue(e, p, v) => ValidParamName(p) && ValidValue(v) && (ValidElementName(e) || HasElement(es, e))
    case AddValue(e, p, v) => ValidElementName(e) && ValidParamName(p) && ValidValue(v)
  }

  method AddNth(heap: Heap, e: Element, rec: ElementRec, i: nat) returns (ok: bool)
    requires TextValues(rec.params) && i < |rec.params| && ValidParams(rec.params[..i])
    requires e.Valid() && e.Named() && e.Foot() <= heap.live && e.View() == ElementRec(rec.name, rec.params[..i])
    modifies e, heap
    ensures heap.refusals >= old(heap.refusals)
    ensures ok || heap.refusals > old(heap.refusals) || !ValidParams(rec.params)
    ensures ok ==> ValidParams(rec.params[..i + 1])
    ensures e.Valid() && e.Named() && e.Foot() <= heap.live && e.Others(heap) == old(e.Others(heap))
    ensures fresh(e.Foot() - old(e.Foot()))
    ensures ok ==> e.View() == ElementRec(rec.name, rec.params[..i + 1])
  {
    ok := e.AddNewParam(heap, rec.params[i].name, rec.params[i].value);
    assert rec.params[..i + 1] == rec.params[..i] + [rec.params[i]];
  }

  method AddAll(heap: Heap, e: Element, rec: ElementRec) returns (ok: bool)
    requires TextValues(rec.params)
    requires e.Valid() && e.Named() && e.Foot() <= heap.live && e.View() == ElementRec(rec.name, [])
    modifies e, heap
    ensures heap.refusals >= old(heap.refusals)
    ensures ok || heap.refusals > old(heap.refusals) || !ValidParams(rec.params)
    ensures ok ==> ValidParams(rec.params)
    ensures e.Valid() && e.Named() && e.Foot() <= heap.live && e.Others(heap) == old(e.Others(heap))
    ensures fresh(e.Foot() - old(e.Foot()))
    ensures ok ==> e.View() == rec
  {
    for i := 0 to |rec.params|
      invariant e.Valid() && e.Named() && e.Foot() <= heap.live && e.Others(heap) == old(e.Others(heap))
      invariant fresh(e.Foot() - old(e.Foot()))
      invariant e.View() == ElementRec(rec.name, rec.params[..i])
      invariant heap.refusals >= old(heap.refusals) && ValidParams(rec.params[..i])
    {
      ok := AddNth(heap, e, rec, i);
      if !ok { return; }
    }
    assert rec.params[..|rec.params|] == rec.params;
    ok := true;
  }

  /** An element with all its params, by `stumpless_new_element` and `stumpless_add_new_param`, or nothing. */
  method BuildElement(heap: Heap, rec: ElementRec) returns (e: Element?)
    requires TextValues(rec.params)
    modifies heap
    ensures heap.refusals >= old(heap.refusals)
    ensures e != null || heap.refusals > old(heap.refusals) || !ValidElement(rec)
    ensures e != null ==> ValidElement(rec)
    ensures e == null ==> heap.live == old(heap.live)
    ensures e != null ==>
      && fresh(e.Foot()) && e.Valid() && e.Named() && e.View() == rec && heap.live == old(heap.live) + e.Foot()
  {
    e := NewElement(heap, rec.name);
    if e == null { return; }
    assert e.Foot() == {e} && e.Others(heap) == old(heap.live);
    var ok := AddAll(heap, e, rec);
    PlusFoot(old(heap.live), heap.live, e.Foot());
    if !ok {
      DestroyElementAndContents(heap, e);
      e := null;
    }
  }

  /** Makes an element and adds it, or leaves nothing behind. */
  method AddBuilt(heap: Heap, entry: Entry, rec: ElementRec) returns (ok: bool)
    requires entry.Valid() && entry.Named() && entry.Foot() <= heap.live && TextValues(rec.params)
    modifies entry`elements, entry`block, heap
    ensures heap.refusals >= old(heap.refusals)
    ensures ok || heap.refusals > old(heap.refusals) || !Acceptable(old(entry.Data()), AddElement(rec))
    ensures ok ==> Acceptable(old(entry.Data()), AddElement(rec))
    ensures entry.Valid() && entry.Named() && entry.Foot() <= heap.live
    ensures entry.Others(heap) == old(entry.Others(heap)) && fresh(entry.Foot() - old(entry.Foot()))
    ensures entry.Data() == if ok then Apply(old(entry.Data()), AddElement(rec)) else old(entry.Data())
  {
    var e := BuildElement(heap, rec);
    entry.Same();
    ok := e != null;
    if ok {
      MadeAndTaken(old(heap.live), old(entry.Foot()), e.Foot());
      ok := entry.AttachOrDestroy(heap, e);
    }
  }

  /** Makes an element and puts it in place of another, which is destroyed; or leaves nothing behind. */
  method SetBuilt(heap: Heap, entry: Entry, index: nat, rec: ElementRec) returns (ok: bool)
    requires entry.Valid() && entry.Named() && entry.Foot() <= heap.live && TextValues(rec.params)
    modifies entry`elements, heap
    ensures heap.refusals >= old(heap.refusals)
    ensures ok || heap.refusals > old(heap.refusals) || !Acceptable(old(entry.Data()), SetElement(index, rec))
    ensures ok ==> Acceptable(old(entry.Data()), SetElement(index, rec))
    ensures entry.Valid() && entry.Named() && entry.Foot() <= heap.live
    ensures entry.Others(heap) == old(entry.Others(heap)) && fresh(entry.Foot() - old(entry.Foot()))
    ensures entry.Data() == if ok then Apply(old(entry.Data()), SetElement(index, rec)) else old(entry.Data())
  {
    var e := BuildElement(heap, rec);
    entry.Same();
    ok := e != null;
    if ok {
      MadeAndTaken(old(heap.live), old(entry.Foot()), e.Foot());
      ok := PutInPlace(heap, entry, index, e);
    }
  }

  method PutInPlace(heap: Heap, entry: Entry, index: nat, e: Element) returns (ok: bool)
    requires entry.Valid() && e.Valid() && entry.Named() && e.Named()
    requires entry.Foot() + e.Foot() <= heap.live && e.Foot() !! entry.Foot()
    modifies entry`elements, heap`live
    ensures entry.Valid() && entry.Named() && entry.Foot() <= heap.live && entry.Foot() <= old(entry.Foot() + e.Foot())
    ensures entry.Others(heap) == old(entry.Others(heap) - e.Foot())
    ensures ok <==> index < |old(entry.Data())| && !HasElement(old(entry.Data()), e.name)
    ensures entry.Data() == if ok then old(entry.Data())[index := old(e.View())] else old(entry.Data())
  {
    var was := if index < |entry.elements| then entry.elements[index] else e;
    ok := entry.SetElement(index, e);
    if ok {
      FootOwned(old(entry.elements), index);
      ElementSame(was);
      Detached(old(heap.live), old(entry.Foot()), old(was.Foot()), old(e.Foot()));
      entry.Discard(heap, was);
    } else {
      entry.Same();
      ElementSame(e);
      entry.Discard(heap, e);
    }
  }

  lemma Detached(live: set<object>, foot: set<object>, was: set<object>, part: set<object>)
    requires was <= foot && foot + part <= live && part !! foot
    ensures foot - was + part <= live && was !! foot - was + part
    ensures live - was - (foot - was + part) == live - foot - part
  {
  }

  method SetByName(heap: Heap, entry: Entry, name: Str, param: Str, value: Str) returns (ok: bool)
    requires entry.Valid() && entry.Named() && entry.Foot() <= heap.live && NoNul(value)
    modifies entry.Foot(), heap
    ensures heap.refusals >= old(heap.refusals)
    ensures ok || heap.refusals > old(heap.refusals) || !Acceptable(old(entry.Data()), SetValue(name, param, value))
    ensures ok ==> Acceptable(old(entry.Data()), SetValue(name, param, value))
    ensures entry.Valid() && entry.Named() && entry.Foot() <= heap.live
    ensures entry.Others(heap) == old(entry.Others(heap)) && fresh(entry.Foot() - old(entry.Foot()))
    ensures entry.Data() == if ok then Apply(old(entry.Data()), SetValue(name, param, value)) else old(entry.Data())
  {
    ok := entry.SetParamValueByName(heap, name, param, value);
  }

  method AddByName(heap: Heap, entry: Entry, name: Str, param: Str, value: Str) returns (ok: bool)
    requires entry.Valid() && entry.Named() && entry.Foot() <= heap.live && NoNul(value)
    modifies entry.Foot(), heap
    ensures heap.refusals >= old(heap.refusals)
    ensures ok || heap.refusals > old(heap.refusals) || !Acceptable(old(entry.Data()), AddValue(name, param, value))
    ensures ok ==> Acceptable(old(entry.Data()), AddValue(name, param, value))
    ensures entry.Valid() && entry.Named() && entry.Foot() <= heap.live
    ensures entry.Others(heap) == old(entry.Others(heap)) && fresh(entry.Foot() - old(entry.Foot()))
    ensures entry.Data() == if ok then Apply(old(entry.Data()), AddValue(name, param, value)) else old(entry.Data())
  {
    ok := entry.AddNewParamToEntry(heap, name, param, value);
  }

  /** One call: a success does what `Apply` says, a failure leaves contents and heap as they were. */
  method AnyCall(heap: Heap, entry: Entry, c: Call) returns (ok: bool)
    requires entry.Valid() && entry.Named() && entry.Foot() <= heap.live && Callable(c)
    modifies entry.Foot(), heap
    ensures heap.refusals >= old(heap.refusals)
    ensures ok || heap.refusals > old(heap.refusals) || !Acceptable(old(entry.Data()), c)
    ensures ok ==> Acceptable(old(entry.Data()), c)
    ensures entry.Valid() && entry.Named() && entry.Foot() <= heap.live
    ensures entry.Others(heap) == old(entry.Others(heap)) && fresh(entry.Foot() - old(entry.Foot()))
    ensures entry.Data() == if ok then Apply(old(entry.Data()), c) else old(entry.Data())
  {
    match c {
      case AddElement(rec) => ok := AddBuilt(heap, entry, rec);
      case SetElement(i, rec) => ok := SetBuilt(heap, entry, i, rec);
      case SetValue(e, p, v) => ok := SetByName(heap, entry, e, p, v);
      case AddValue(e, p, v) => ok := AddByName(heap, entry, e, p, v);
    }
  }

  /** The calls with their outcomes. */
  function Zip(calls: seq<Call>, outcomes: seq<bool>): (steps: seq<(Call, bool)>)
    requires |calls| == |outcomes|
    ensures |steps| == |calls|
  {
    seq(|calls|, i requires 0 <= i < |calls| => (calls[i], outcomes[i]))
  }

  lemma {:induction false} RunSnoc(es: seq<ElementRec>, steps: seq<(Call, bool)>, last: (Call, bool))
    ensures Run(es, steps + [last]) == if last.1 then Apply(Run(es, steps), last.0) else Run(es, steps)
    decreases |steps|
  {
    if steps == [] {
      assert steps + [last] == [last] && [last][1..] == [];
    } else {
      assert (steps + [last])[1..] == steps[1..] + [last];
      RunSnoc(if steps[0].1 then Apply(es, steps[0].0) else es, steps[1..], last);
    }
  }

  /** What the first calls, with these outcomes, make of an empty entry. */
  function DataAfter(calls: seq<Call>, outcomes: seq<bool>): seq<ElementRec>
    requires |outcomes| <= |calls|
  {
    Run([], Zip(calls[..|outcomes|], outcomes))
  }

  /** Each call succeeded only if it was acceptable then, and failed only if it was not or an allocation was refused. */
  predicate Explained(calls: seq<Call>, outcomes: seq<bool>, refused: seq<bool>)
    requires |refused| == |outcomes| <= |calls|
  {
    forall i {:trigger outcomes[i]} | 0 <= i < |outcomes| ::
      var acceptable := Acceptable(DataAfter(calls, outcomes[..i]), calls[i]);
      if outcomes[i] then acceptable else refused[i] || !acceptable
  }

  lemma OneCallMore(calls: seq<Call>, outcomes: seq<bool>, refused: seq<bool>, ok: bool, refusal: bool)
    requires |refused| == |outcomes| < |calls| && Explained(calls, outcomes, refused)
    requires var acceptable := Acceptable(DataAfter(calls, outcomes), calls[|outcomes|]);
             if ok then acceptable else refusal || !acceptable
    ensures Explained(calls, outcomes + [ok], refused + [refusal])
    ensures var data := DataAfter(calls, outcomes);
            DataAfter(calls, outcomes + [ok]) == if ok then Apply(data, calls[|outcomes|]) else data
  {
    var n := |outcomes|;
    assert Zip(calls[..n + 1], outcomes + [ok]) == Zip(calls[..n], outcomes) + [(calls[n], ok)];
    RunSnoc([], Zip(calls[..n], outcomes), (calls[n], ok));
    forall i | 0 <= i < n + 1
      ensures (outcomes + [ok])[..i] == outcomes[..i]
    {
    }
    assert outcomes[..n] == outcomes;
  }

  /** Any run of calls on a new entry on the heap, some refused an allocation or failing a check at any point: its
      contents are those of the run of the calls that succeeded, so no two of its elements ever have one name; a call
      fails only for a refusal or because it was not acceptable; and the entry alone has blocks of the run left. */
  method AnyRun(heap: Heap, entry: Entry, calls: seq<Call>) returns (outcomes: seq<bool>, ghost refused: seq<bool>)
    requires entry.Valid() && entry.elements == [] && entry.Foot() <= heap.live
    requires forall i | 0 <= i < |calls| :: Callable(calls[i])
    modifies entry.Foot(), heap
    ensures |outcomes| == |calls| == |refused| && entry.Valid() && entry.Named() && entry.Foot() <= heap.live
    ensures entry.Data() == DataAfter(calls, outcomes) && DistinctNames(entry.Data())
    ensures Explained(calls, outcomes, refused) && Slab.Count(refused) <= heap.refusals - old(heap.refusals)
    ensures entry.Others(heap) == old(entry.Others(heap))
  {
    outcomes, refused := [], [];
    for i := 0 to |calls|
      invariant |outcomes| == i == |refused| && entry.Valid() && entry.Named() && entry.Foot() <= heap.live
      invariant entry.Data() == DataAfter(calls, outcomes) && Explained(calls, outcomes, refused)
      invariant Slab.Count(refused) <= heap.refusals - old(heap.refusals)
      invariant entry.Others(heap) == old(entry.Others(heap)) && fresh(entry.Foot() - old(entry.Foot()))
    {
      ghost var before := heap.refusals;
      var ok := AnyCall(heap, entry, calls[i]);
      OneCallMore(calls, outcomes, refused, ok, heap.refusals > before);
      Slab.CountSnoc(refused, heap.refusals > before);
      outcomes, refused := outcomes + [ok], refused + [heap.refusals > before];
    }
    NamesStayDistinct([], Zip(calls[..|calls|], outcomes));
  }
}

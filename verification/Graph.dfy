/** Entries, elements and params as the heap objects of src/entry.c, src/element.c and src/param.c. */
module Graph {
  import opened Bytes
  import opened Records
  import opened Allocation
  import opened Validate
  import opened StructuredData
  import Params
  import Utf8

  /** A C string on the heap. It is replaced, never written to. */
  class Text {
    const text: CText

    constructor (text: CText)
      ensures this.text == text
    {
      this.text := text;
    }
  }

  /** An array of pointers on the heap; what it points to is held by its owner's `seq` field. */
  class Block {
    constructor () {}
  }

  /** `copy_cstring_with_length`. */
  method NewText(heap: Heap, text: CText) returns (t: Text?)
    modifies heap
    ensures heap.refusals == old(heap.refusals) + if t == null then 1 else 0
    ensures t == null ==> heap.live == old(heap.live)
    ensures t != null ==> fresh(t) && t.text == text && heap.live == old(heap.live) + {t}
  {
    var ok := heap.Granted();
    if !ok { return null; }
    t := new Text(text);
    heap.Adopt(t);
  }

  /** `realloc` of a pointer array. */
  method Regrow(heap: Heap, block: Block?) returns (b: Block?)
    requires block != null ==> block in heap.live
    modifies heap
    ensures heap.refusals == old(heap.refusals) + if b == null then 1 else 0
    ensures b == null ==> heap.live == old(heap.live)
    ensures b != null ==> fresh(b) && heap.live == old(heap.live) - {block} + {b}
  {
    var ok := heap.Granted();
    if !ok { return null; }
    b := new Block();
    heap.Adopt(b);
    if block != null {
      heap.Free(block);
    }
  }

  /** Swapping the blocks `gone` of a footprint for blocks `come` that were not live: the footprint stays
      live, and the rest of the heap is what it was. */
  lemma Accounts(live0: set<object>, live1: set<object>, foot0: set<object>, foot1: set<object>,
                 gone: set<object>, come: set<object>)
    requires gone <= foot0 <= live0 && come !! live0
    requires live1 == live0 - gone + come && foot1 == foot0 - gone + come
    ensures foot1 <= live1 && live1 - foot1 == live0 - foot0
  {
  }

  /** The same when the footprint also takes over `part`, which was live beside it. */
  lemma TakesOver(live0: set<object>, live1: set<object>, foot0: set<object>, foot1: set<object>,
                  gone: set<object>, come: set<object>, part: set<object>)
    requires gone <= foot0 <= live0 && part <= live0 && part !! foot0 && come !! live0
    requires live1 == live0 - gone + come && foot1 == foot0 - gone + (come + part)
    ensures foot1 <= live1 && live1 - foot1 == live0 - foot0 - part && foot1 - foot0 - part <= come
  {
  }

  lemma MadeAndTaken(live0: set<object>, foot0: set<object>, part: set<object>)
    requires part !! live0
    ensures live0 + part - foot0 - part == live0 - foot0
  {
  }

  class Param {
    var name: CText
    // the bytes of the name array behind the name; the calls that copy or compare names as C strings read on into them
    const tail: Tail
    var value: Text

    function View(): ParamRec
      reads this
    {
      ParamRec(name, value.text)
    }

    ghost function Foot(): set<object>
      reads this
    {
      {this, value}
    }

    predicate Terminated() {
      tail[0] == NUL
    }

    constructor (name: CText, tail: Tail, value: Text)
      ensures this.name == name && this.tail == tail && this.value == value
    {
      this.name, this.tail, this.value := name, tail, value;
    }

    /** `stumpless_set_param_value`: the new value is in place before the old one is freed. */
    method SetValue(heap: Heap, value: Str) returns (ok: bool)
      requires Foot() <= heap.live && NoNul(value)
      modifies this`value, heap
      ensures heap.refusals >= old(heap.refusals)
      ensures ok || heap.refusals > old(heap.refusals) || !ValidValue(value)
      ensures !ok ==> unchanged(this) && heap.live == old(heap.live)
      ensures ok ==> View() == ParamRec(name, value) && ValidValue(value) && fresh(this.value)
      ensures ok ==> heap.live == old(heap.live) - {old(this.value)} + {this.value}
    {
      ok := Utf8.ValidateUtf8Compliance(value);
      if !ok { return; }
      var newValue := NewText(heap, value);
      if newValue == null { return false; }
      var oldValue := this.value;
      this.value := newValue;
      heap.Free(oldValue);
    }
  }

  /** `stumpless_new_param`: three allocations, each given back if a later one fails. The last is the mutex's. */
  method NewParam(heap: Heap, name: Str, value: Str) returns (p: Param?)
    requires NoNul(value)
    modifies heap
    ensures heap.refusals >= old(heap.refusals)
    ensures p != null || heap.refusals > old(heap.refusals) || !ValidParamName(name) || !ValidValue(value)
    ensures p == null ==> heap.live == old(heap.live)
    ensures p != null ==>
      && fresh(p) && fresh(p.value) && p.View() == ParamRec(name, value) && p.Terminated()
      && ValidParamName(name) && ValidValue(value) && heap.live == old(heap.live) + p.Foot()
  {
    var ok := ValidateParamName(name);
    if !ok { return null; }
    ok := Utf8.ValidateUtf8Compliance(value);
    if !ok { return null; }
    ok := heap.Granted();
    if !ok { return null; }
    var text := NewText(heap, value);
    if text == null { return null; }
    ok := heap.Granted();
    if !ok {
      heap.Free(text);
      return null;
    }
    var garbage := Garbage(MAX_PARAM_NAME_LENGTH - |name|);
    p := new Param(name, [NUL] + garbage, text);
    heap.Adopt(p);
  }

  /** `stumpless_new_param_from_string`: the same, but the name is stored without a terminator, so whatever the memory
      held stays behind it. */
  method NewParamFromString(heap: Heap, mem: Str) returns (p: Param?)
    requires IsCString(mem)
    modifies heap
    ensures p == null ==> heap.live == old(heap.live)
    ensures p == null <==> heap.refusals > old(heap.refusals) || !Params.Parse(mem[..|mem| - 1]).Parsed?
    ensures p != null ==>
      && fresh(p) && fresh(p.value) && Params.Parse(mem[..|mem| - 1]) == Params.Parsed(p.View())
      && |p.name| + |p.tail| == MAX_PARAM_NAME_LENGTH + 1 && heap.live == old(heap.live) + p.Foot()
  {
    var ok := heap.Granted();
    if !ok { return null; }
    ok := heap.Granted();
    if !ok { return null; }
    var r := Params.ParseString(mem);
    if !r.Parsed? { return null; }
    Params.PrintParsed(mem[..|mem| - 1]);
    var text := NewText(heap, r.param.value);
    if text == null { return null; }
    var garbage := Garbage(MAX_PARAM_NAME_LENGTH + 1 - |r.param.name|);
    p := new Param(r.param.name, garbage, text);
    heap.Adopt(p);
  }

  method DestroyParam(heap: Heap, p: Param)
    requires p.Foot() <= heap.live
    modifies heap`live
    ensures heap.live == old(heap.live) - p.Foot()
  {
    heap.Free(p.value);
    heap.Free(p);
  }

  /** What an array pointer adds to a footprint. */
  ghost function Held(block: Block?): set<object> {
    if block == null then {} else {block}
  }

  ghost function Feet(params: seq<Param>): set<object>
    reads params
  {
    (set p | p in params :: p as object) + (set p | p in params :: p.value as object)
  }

  /** No param and no value is attached twice. */
  ghost predicate Apart(params: seq<Param>)
    reads params
  {
    forall i, k | 0 <= i < k < |params| :: params[i] != params[k] && params[i].value != params[k].value
  }

  function Views(params: seq<Param>): seq<ParamRec>
    reads params
  {
    seq(|params|, i requires 0 <= i < |params| reads params => params[i].View())
  }

  function TailsOf(params: seq<Param>): (tails: seq<Tail>)
    ensures |tails| == |params| && forall j | 0 <= j < |params| :: tails[j] == params[j].tail
  {
    if params == [] then [] else [params[0].tail] + TailsOf(params[1..])
  }

  lemma FeetSnoc(params: seq<Param>, p: Param)
    ensures Feet(params + [p]) == Feet(params) + p.Foot()
  {
    var all := params + [p];
    assert forall q :: q in all <==> q in params || q == p;
    forall q: Param | q in all
      ensures q as object in Feet(params) + p.Foot() && q.value as object in Feet(params) + p.Foot()
    {
    }
    forall q: Param | q in all
      ensures q as object in Feet(all) && q.value as object in Feet(all)
    {
    }
  }

  lemma ViewsSnoc(params: seq<Param>, p: Param)
    ensures Views(params + [p]) == Views(params) + [p.View()]
  {
  }

  class Element {
    var name: Str
    var params: seq<Param>
    var block: Block?

    function View(): ElementRec
      reads this, params
    {
      ElementRec(name, Views(params))
    }

    ghost function Foot(): set<object>
      reads this, params
    {
      {this} + Held(block) + Feet(params)
    }

    /** The objects that the element's calls write to. */
    ghost function Objects(): set<object>
      reads this
    {
      {this} + set j | 0 <= j < |params| :: params[j] as object
    }

    lemma ObjectsOwned()
      ensures Objects() <= Foot()
    {
      assert forall j | 0 <= j < |params| :: params[j] in params;
    }

    ghost predicate Valid()
      reads this, params
    {
      Apart(params)
    }

    /** Every param's name can be read as a C string. The by-name calls are not for other elements. */
    ghost predicate Named()
      reads this
    {
      forall j | 0 <= j < |params| :: params[j].Terminated()
    }

    function Tails(): seq<Tail>
      reads this
    {
      TailsOf(params)
    }

    ghost function Others(heap: Heap): set<object>
      reads this, params, heap`live
    {
      heap.live - Foot()
    }

    constructor (name: Str)
      ensures this.name == name && params == [] && block == null
    {
      this.name, params, block := name, [], null;
    }

    /** `stumpless_get_param_by_name`: the first match, or the param count. */
    method IndexOf(name: Str) returns (j: nat)
      requires Named()
      ensures j == FindParam(Views(params), name)
    {
      j := 0;
      while j < |params|
        invariant j <= |params|
        invariant forall k | 0 <= k < j :: Views(params)[k].name != name
      {
        CStringAt(params[j].name, params[j].tail);
        if CString(params[j].name + params[j].tail) == Some(name) {
          break;
        }
        j := j + 1;
      }
      FindParamIs(Views(params), name, j);
    }

    /** `stumpless_add_param`: the array grows first, so a failure changes nothing. */
    method AddParam(heap: Heap, p: Param) returns (ok: bool)
      requires Valid() && Foot() + p.Foot() <= heap.live && p.Foot() !! Foot()
      modifies this, heap
      ensures heap.refusals == old(heap.refusals) + if ok then 0 else 1
      ensures !ok ==> unchanged(this) && heap.live == old(heap.live)
      ensures ok ==> Valid() && View() == ElementRec(old(name), old(Views(params)) + [old(p.View())])
      ensures ok ==> fresh(Held(block)) && Held(block) != {} && params == old(params) + [p]
      ensures ok ==> heap.live == old(heap.live) - old(Held(block)) + Held(block)
      ensures ok ==> Foot() == old(Foot()) - old(Held(block)) + (Held(block) + p.Foot())
    {
      var newParams := Regrow(heap, block);
      if newParams == null {
        return false;
      }
      block := newParams;
      params := params + [p];
      Attached(p);
      ok := true;
    }

    /** One more param is attached, in the same array or a new one. */
    twostate lemma Attached(p: Param)
      requires old(Valid()) && old(p.Foot()) !! old(Foot()) && unchanged(p) && unchanged(old(params))
      requires name == old(name) && params == old(params) + [p]
      requires block == old(block) || (block != null && block !in old(Foot() + p.Foot()))
      ensures Valid() && View() == ElementRec(old(name), old(Views(params)) + [old(p.View())])
      ensures Foot() == old(Foot()) - old(Held(block)) + (Held(block) + p.Foot())
    {
      FeetSnoc(old(params), p);
      ViewsSnoc(old(params), p);
      assert Views(old(params)) == old(Views(params));
      assert forall k | 0 <= k < |old(params)| :: old(params)[k] in old(params);
    }

    /** `stumpless_add_new_param`: all or nothing; the param is destroyed again if it cannot be attached. */
    method AddNewParam(heap: Heap, paramName: Str, value: Str) returns (ok: bool)
      requires Valid() && Foot() <= heap.live && NoNul(value)
      modifies this, heap
      ensures heap.refusals >= old(heap.refusals)
      ensures ok || heap.refusals > old(heap.refusals) || !ValidParamName(paramName) || !ValidValue(value)
      ensures old(Named()) ==> Named()
      ensures Valid() && Foot() <= heap.live && Others(heap) == old(Others(heap)) && fresh(Foot() - old(Foot()))
      ensures !ok ==> unchanged(this) && heap.live == old(heap.live)
      ensures ok ==> ValidParamName(paramName) && ValidValue(value)
      ensures ok ==> View() == ElementRec(old(name), old(Views(params)) + [ParamRec(paramName, value)])
    {
      var p := NewParam(heap, paramName, value);
      ElementSame(this);
      if p == null {
        return false;
      }
      MadeAndTaken(old(heap.live), old(Foot()), p.Foot());
      ok := AddOrDestroy(heap, p);
    }

    /** Attaches a param just made, or destroys it again. */
    method AddOrDestroy(heap: Heap, p: Param) returns (ok: bool)
      requires Valid() && Foot() + p.Foot() <= heap.live && p.Foot() !! Foot()
      modifies this, heap
      ensures heap.refusals == old(heap.refusals) + if ok then 0 else 1
      ensures Valid() && Foot() <= heap.live && Others(heap) == old(Others(heap)) - old(p.Foot())
      ensures fresh(Foot() - old(Foot()) - old(p.Foot()))
      ensures old(Named()) && p.Terminated() ==> Named()
      ensures !ok ==> unchanged(this) && heap.live == old(heap.live) - old(p.Foot())
      ensures ok ==> View() == ElementRec(old(name), old(Views(params)) + [old(p.View())])
    {
      ok := AddParam(heap, p);
      if ok {
        TakesOver(old(heap.live), heap.live, old(Foot()), Foot(), old(Held(block)), Held(block), old(p.Foot()));
        return;
      }
      ElementSame(this);
      DestroyParam(heap, p);
      ElementSame(this);
    }

    /** `stumpless_set_param_value_by_index` within bounds. */
    method SetValueAt(heap: Heap, j: nat, value: Str) returns (ok: bool)
      requires Valid() && Foot() <= heap.live && NoNul(value) && j < |params|
      modifies params[j], heap
      ensures heap.refusals >= old(heap.refusals)
      ensures ok || heap.refusals > old(heap.refusals) || !ValidValue(value)
      ensures Valid() && Foot() <= heap.live && Others(heap) == old(Others(heap)) && fresh(Foot() - old(Foot()))
      ensures !ok ==> unchanged(params) && heap.live == old(heap.live)
      ensures ok ==> ValidValue(value)
      ensures ok ==> Views(params) == old(Views(params))[j := ParamRec(old(params[j].name), value)]
    {
      ok := params[j].SetValue(heap, value);
      if ok {
        Swapped(j);
        Accounts(old(heap.live), heap.live, old(Foot()), Foot(), {old(params[j].value)}, {params[j].value});
      }
    }

    /** One param has a new value that no param held. */
    twostate lemma Swapped(new j: nat)
      requires old(Valid()) && unchanged(this) && j < |params| && params[j].name == old(params[j].name)
      requires forall k | 0 <= k < |params| && k != j :: unchanged(params[k])
      requires params[j].value !in old(Feet(params))
      ensures Valid() && Foot() == old(Foot()) - {old(params[j].value)} + {params[j].value}
      ensures Views(params) == old(Views(params))[j := params[j].View()]
    {
    }

    /** `stumpless_set_param_value_by_name`. */
    method SetValueByName(heap: Heap, paramName: Str, value: Str) returns (ok: bool)
      requires Valid() && Named() && Foot() <= heap.live && NoNul(value)
      modifies Objects(), heap
      ensures heap.refusals >= old(heap.refusals)
      ensures ok || heap.refusals > old(heap.refusals) || !ValidParamName(paramName) || !ValidValue(value)
      ensures Named()
      ensures Valid() && Foot() <= heap.live && Others(heap) == old(Others(heap)) && fresh(Foot() - old(Foot()))
      ensures !ok ==> View() == old(View()) && heap.live == old(heap.live) && Foot() == old(Foot())
      ensures ok ==> ValidParamName(paramName) && ValidValue(value)
      ensures ok ==> View() == ElementRec(old(name), SetParam(old(Views(params)), paramName, value))
    {
      ok := ValidateParamName(paramName);
      var j := |params|;
      if ok {
        j := IndexOf(paramName);
      }
      ElementSame(this);
      if j < |params| {
        ok := SetValueAt(heap, j, value);
      } else {
        ok := AddNewParam(heap, paramName, value);
      }
    }

    method PutParam(heap: Heap, paramName: Str, value: Str, upsert: bool) returns (ok: bool)
      requires Valid() && (upsert ==> Named()) && Foot() <= heap.live && NoNul(value)
      modifies Objects(), heap
      ensures heap.refusals >= old(heap.refusals)
      ensures ok || heap.refusals > old(heap.refusals) || !ValidParamName(paramName) || !ValidValue(value)
      ensures old(Named()) ==> Named()
      ensures Valid() && Foot() <= heap.live && Others(heap) == old(Others(heap)) && fresh(Foot() - old(Foot()))
      ensures !ok ==> View() == old(View()) && heap.live == old(heap.live) && Foot() == old(Foot())
      ensures ok ==> ValidParamName(paramName) && ValidValue(value)
      ensures ok ==> View() == ElementRec(old(name), PutParams(old(Views(params)), paramName, value, upsert))
    {
      if upsert {
        ok := SetValueByName(heap, paramName, value);
      } else {
        ok := AddNewParam(heap, paramName, value);
      }
    }
  }

  /** What a by-name call does to an element's params: set the first match, or add one whatever there is. */
  function PutParams(ps: seq<ParamRec>, name: Str, value: Str, upsert: bool): seq<ParamRec> {
    if upsert then SetParam(ps, name, value) else ps + [ParamRec(name, value)]
  }

  /** The mutex is the second allocation of `stumpless_new_element`. */
  method NewElement(heap: Heap, name: Str) returns (e: Element?)
    modifies heap
    ensures heap.refusals >= old(heap.refusals)
    ensures e != null || heap.refusals > old(heap.refusals) || !ValidElementName(name)
    ensures e == null ==> heap.live == old(heap.live)
    ensures e != null ==>
      && fresh(e) && e.Valid() && e.View() == ElementRec(name, []) && e.params == [] && e.block == null
      && ValidElementName(name) && heap.live == old(heap.live) + {e}
  {
    var ok := ValidateElementName(name);
    if !ok { return null; }
    ok := heap.Granted();
    if !ok { return null; }
    ok := heap.Granted();
    if !ok { return null; }
    e := new Element(name);
    heap.Adopt(e);
  }

  /** `stumpless_destroy_element_and_contents`: every block of the footprint is freed, each once. */
  method DestroyElementAndContents(heap: Heap, e: Element)
    requires e.Valid() && e.Foot() <= heap.live
    modifies heap`live
    ensures heap.live == old(heap.live) - e.Foot()
  {
    for i := 0 to |e.params|
      invariant heap.live == old(heap.live) - Feet(e.params[..i])
    {
      assert e.params[..i + 1] == e.params[..i] + [e.params[i]];
      FeetSnoc(e.params[..i], e.params[i]);
      assert e.params[i] in e.params && e.params[i].Foot() <= e.Foot();
      assert e.params[i].Foot() !! Feet(e.params[..i]);
      DestroyParam(heap, e.params[i]);
    }
    assert e.params[..|e.params|] == e.params;
    if e.block != null {
      heap.Free(e.block);
    }
    heap.Free(e);
  }

  lemma PlusFoot(live0: set<object>, live1: set<object>, foot: set<object>)
    requires foot <= live1 && live1 - foot == live0
    ensures live1 == live0 + foot
  {
  }

  /** A new element with one param, released again if the param cannot be made or attached. */
  method NewElementWith(heap: Heap, name: Str, paramName: Str, value: Str, upsert: bool) returns (e: Element?)
    requires NoNul(value)
    modifies heap
    ensures heap.refusals >= old(heap.refusals)
    ensures e != null || heap.refusals > old(heap.refusals)
         || !ValidElementName(name) || !ValidParamName(paramName) || !ValidValue(value)
    ensures e == null ==> heap.live == old(heap.live)
    ensures e != null ==>
      && fresh(e) && fresh(e.Foot()) && e.Valid() && e.Named() && heap.live == old(heap.live) + e.Foot()
      && e.View() == ElementRec(name, [ParamRec(paramName, value)])
      && ValidElementName(name) && ValidParamName(paramName) && ValidValue(value)
  {
    e := NewElement(heap, name);
    if e != null {
      assert e.Foot() == {e} && e.Others(heap) == old(heap.live);
      var ok := e.PutParam(heap, paramName, value, upsert);
      PlusFoot(old(heap.live), heap.live, e.Foot());
      if !ok {
        DestroyElementAndContents(heap, e);
        e := null;
      }
    }
  }

  /** A part of a footprint that only took and released blocks of its own leaves the whole in order. */
  lemma Nested(live0: set<object>, live1: set<object>, part0: set<object>, part1: set<object>,
               foot0: set<object>, foot1: set<object>)
    requires part0 <= foot0 <= live0 && part1 <= live1 && (part1 - part0) !! live0
    requires live1 - part1 == live0 - part0 && foot1 == foot0 - part0 + part1
    ensures foot1 <= live1 && live1 - foot1 == live0 - foot0
  {
    forall o: object
      ensures o in live1 && o !in part1 <==> o in live0 && o !in part0
    {
      assert o in live1 - part1 <==> o in live0 - part0;
    }
  }

  ghost function ParamsOf(es: seq<Element>): set<Param>
    reads es
  {
    set i, j | 0 <= i < |es| && 0 <= j < |es[i].params| :: es[i].params[j]
  }

  ghost function ElementFeet(es: seq<Element>): set<object>
    reads es, ParamsOf(es)
  {
    set i, o | 0 <= i < |es| && o in es[i].Foot() :: o
  }

  ghost predicate ElementsApart(es: seq<Element>)
    reads es, ParamsOf(es)
  {
    && (forall i | 0 <= i < |es| :: es[i].Valid())
    && forall i, k | 0 <= i < k < |es| :: es[i].Foot() !! es[k].Foot()
  }

  ghost function ElementViews(es: seq<Element>): seq<ElementRec>
    reads es, ParamsOf(es)
  {
    seq(|es|, i requires 0 <= i < |es| reads es, ParamsOf(es) => es[i].View())
  }

  twostate lemma ElementSame(e: Element)
    requires unchanged(e) && unchanged(e.params)
    ensures e.Foot() == old(e.Foot()) && e.View() == old(e.View()) && e.Valid() == old(e.Valid())
    ensures e.Named() == old(e.Named())
  {
    assert Views(e.params) == old(Views(e.params));
  }

  twostate lemma OtherKept(es: seq<Element>, new i: nat, new k: nat)
    requires i < |es| && k < |es| && i != k && old(ElementsApart(es)) && unchanged(es[k]) && unchanged(es[k].params)
    requires (es[i].Foot() - old(es[i].Foot())) !! old(ElementFeet(es))
    ensures es[k].Foot() == old(es[k].Foot()) && es[k].Valid() && es[k].Foot() !! es[i].Foot()
  {
    ElementSame(es[k]);
    assert old(es[k].Foot()) <= old(ElementFeet(es));
    assert k < i ==> old(es[k].Foot()) !! old(es[i].Foot());
    assert i < k ==> old(es[i].Foot()) !! old(es[k].Foot());
  }

  /** One element, and its params, may have changed; every other is as it was. */
  twostate lemma ElementChanged(es: seq<Element>, new i: nat)
    requires i < |es| && old(ElementsApart(es)) && es[i].Valid()
    requires forall k | 0 <= k < |es| && k != i :: unchanged(es[k])
    requires forall k | 0 <= k < |es| && k != i :: unchanged(es[k].params)
    requires (es[i].Foot() - old(es[i].Foot())) !! old(ElementFeet(es))
    ensures ElementsApart(es)
    ensures ElementFeet(es) == old(ElementFeet(es)) - old(es[i].Foot()) + es[i].Foot()
  {
    forall k | 0 <= k < |es| && k != i
      ensures es[k].Foot() == old(es[k].Foot()) && es[k].Valid() && es[k].Foot() !! es[i].Foot()
    {
      OtherKept(es, i, k);
    }
  }

  twostate lemma ViewsChanged(es: seq<Element>, new i: nat)
    requires i < |es|
    requires forall k | 0 <= k < |es| && k != i :: unchanged(es[k])
    requires forall k | 0 <= k < |es| && k != i :: unchanged(es[k].params)
    ensures ElementViews(es) == old(ElementViews(es))[i := es[i].View()]
  {
    forall k | 0 <= k < |es| && k != i
      ensures ElementViews(es)[k] == old(ElementViews(es))[k]
    {
      ElementSame(es[k]);
    }
  }

  lemma FeetAppended(es: seq<Element>, e: Element)
    ensures ElementFeet(es + [e]) == ElementFeet(es) + e.Foot()
  {
    var fs := es + [e];
    assert forall k | 0 <= k < |es| :: fs[k] == es[k];
    assert fs[|es|] == e;
  }

  lemma ViewsAppended(es: seq<Element>, e: Element)
    ensures ElementViews(es + [e]) == ElementViews(es) + [e.View()]
  {
  }

  lemma ApartAppended(es: seq<Element>, e: Element)
    requires ElementsApart(es) && e.Valid() && e.Foot() !! ElementFeet(es)
    ensures ElementsApart(es + [e])
  {
    var fs := es + [e];
    forall a, b | 0 <= a < b < |fs|
      ensures fs[a].Foot() !! fs[b].Foot()
    {
      assert fs[a] == es[a];
      if b < |es| {
        assert es[a].Foot() !! es[b].Foot();
      } else {
        assert es[a].Foot() <= ElementFeet(es);
      }
    }
  }

  lemma FootOwned(es: seq<Element>, i: nat)
    requires i < |es|
    ensures es[i].Foot() <= ElementFeet(es)
  {
  }

  lemma SwapApart(es: seq<Element>, index: nat, e: Element)
    requires ElementsApart(es) && index < |es| && e.Valid() && e.Foot() !! ElementFeet(es)
    ensures ElementsApart(es[index := e])
    ensures ElementViews(es[index := e]) == ElementViews(es)[index := e.View()]
  {
    var fs := es[index := e];
    forall a, b | 0 <= a < b < |fs|
      ensures fs[a].Foot() !! fs[b].Foot()
    {
      if a == index {
        FootOwned(es, b);
      } else if b == index {
        FootOwned(es, a);
      } else {
        assert es[a].Foot() !! es[b].Foot();
      }
    }
  }

  lemma SwapFeet(es: seq<Element>, index: nat, e: Element)
    requires ElementsApart(es) && index < |es|
    ensures ElementFeet(es[index := e]) == ElementFeet(es) - es[index].Foot() + e.Foot()
  {
    var fs := es[index := e];
    forall i | 0 <= i < |es| && i != index
      ensures fs[i].Foot() <= ElementFeet(es) - es[index].Foot()
    {
      assert i < index ==> es[i].Foot() !! es[index].Foot();
      assert index < i ==> es[index].Foot() !! es[i].Foot();
      FootOwned(es, i);
    }
    forall o | o in ElementFeet(es) - es[index].Foot()
      ensures o in ElementFeet(fs)
    {
      var i :| 0 <= i < |es| && o in es[i].Foot();
      assert fs[i] == es[i];
    }
    assert fs[index] == e;
    FootOwned(fs, index);
  }

  ghost predicate ElementsNamed(es: seq<Element>)
    reads es
  {
    forall i | 0 <= i < |es| :: es[i].Named()
  }

  /** Writing to no element and no param leaves footprints and contents alone. */
  twostate lemma Untouched(es: seq<Element>)
    requires unchanged(es) && unchanged(ParamsOf(es))
    ensures ElementFeet(es) == old(ElementFeet(es)) && ElementViews(es) == old(ElementViews(es))
    ensures ElementsApart(es) == old(ElementsApart(es))
  {
  }

  class Entry {
    var prival: int
    // each name lies in a fixed array; the tail is what the array holds behind it
    var appName: CText
    const appTail: Tail
    var msgid: CText
    const msgidTail: Tail
    var hostname: Str
    var procid: Str
    var message: Text?
    var elements: seq<Element>
    var block: Block?

    constructor (prival: int, appName: CText, appTail: Tail, msgid: CText, msgidTail: Tail, message: Text?)
      ensures this.prival == prival && this.appName == appName && this.msgid == msgid && this.message == message
      ensures this.appTail == appTail && this.msgidTail == msgidTail
      ensures hostname == [] && procid == [] && elements == [] && block == null
    {
      this.prival, this.appName, this.msgid, this.message := prival, appName, msgid, message;
      this.appTail, this.msgidTail := appTail, msgidTail;
      hostname, procid, elements, block := [], [], [], null;
    }

    ghost function Mine(): set<object>
      reads this
    {
      {this} + Held(block) + if message == null then {} else {message}
    }

    ghost function Foot(): set<object>
      reads this, elements, ParamsOf(elements)
    {
      Mine() + ElementFeet(elements)
    }

    /** No element, param or value is attached twice, here or elsewhere in the entry. */
    ghost predicate Valid()
      reads this, elements, ParamsOf(elements)
    {
      ElementsApart(elements) && Mine() !! ElementFeet(elements)
    }

    /** The by-name calls compare param names as C strings. */
    ghost predicate Named()
      reads this, elements
    {
      ElementsNamed(elements)
    }

    ghost function Others(heap: Heap): set<object>
      reads this, elements, ParamsOf(elements), heap`live
    {
      heap.live - Foot()
    }

    /** The structured data. */
    ghost function Data(): seq<ElementRec>
      reads this, elements, ParamsOf(elements)
    {
      ElementViews(elements)
    }

    ghost function View(): EntryRec
      reads this, elements, ParamsOf(elements)
    {
      EntryRec(prival, hostname, appName, procid, msgid, Data(), if message == null then [] else message.text)
    }

    /** `locked_get_element_by_name`: the first match, or the element count. */
    method IndexOf(name: Str) returns (i: nat)
      ensures i == FindElement(Data(), name)
    {
      i := 0;
      while i < |elements|
        invariant i <= |elements|
        invariant forall k | 0 <= k < i :: Data()[k].name != name
      {
        if elements[i].name == name {
          break;
        }
        i := i + 1;
      }
      FindElementIs(Data(), name, i);
    }

    twostate lemma Same()
      requires unchanged(this) && unchanged(elements) && unchanged(ParamsOf(elements))
      ensures Foot() == old(Foot()) && Data() == old(Data()) && Valid() == old(Valid()) && Named() == old(Named())
    {
      Untouched(elements);
    }

    lemma AllOwned()
      ensures forall i | 0 <= i < |elements| :: elements[i] in Foot()
      ensures forall p | p in ParamsOf(elements) :: p in Foot()
    {
      forall i, j | 0 <= i < |elements| && 0 <= j < |elements[i].params|
        ensures elements[i].params[j] in Foot()
      {
        assert elements[i].params[j] in elements[i].params;
        assert elements[i].Foot() <= ElementFeet(elements);
      }
      forall i | 0 <= i < |elements|
        ensures elements[i] in Foot()
      {
        assert elements[i] in elements[i].Foot() && elements[i].Foot() <= ElementFeet(elements);
      }
    }

    /** `locked_add_element`: refuses a duplicate name; the array grows first, so a failure changes nothing. */
    method AddElement(heap: Heap, e: Element) returns (ok: bool)
      requires Valid() && e.Valid() && Foot() + e.Foot() <= heap.live && e.Foot() !! Foot()
      modifies this`elements, this`block, heap
      ensures heap.refusals >= old(heap.refusals)
      ensures ok || heap.refusals > old(heap.refusals) || HasElement(old(Data()), e.name)
      ensures !ok ==> unchanged(this) && heap.live == old(heap.live)
      ensures ok ==> Valid() && !HasElement(old(Data()), e.name) && Data() == old(Data()) + [old(e.View())]
      ensures ok && old(Named()) && old(e.Named()) ==> Named()
      ensures ok ==> fresh(Held(block))
      ensures ok ==> heap.live == old(heap.live) - old(Held(block)) + Held(block)
      ensures ok ==> Foot() == old(Foot()) - old(Held(block)) + (Held(block) + old(e.Foot()))
    {
      var i := IndexOf(e.name);
      Same();
      ElementSame(e);
      ok := i == |elements|;
      if ok {
        ok := Attach(heap, e);
      }
    }

    /** Writes one more element into an array with room for it. */
    method Push(e: Element)
      requires Valid() && e.Valid() && e.Foot() !! Foot()
      modifies this`elements
      ensures Valid() && Data() == old(Data()) + [old(e.View())] && Foot() == old(Foot()) + old(e.Foot())
      ensures old(Named()) && old(e.Named()) ==> Named()
    {
      elements := elements + [e];
      Grown(e);
    }

    method Attach(heap: Heap, e: Element) returns (ok: bool)
      requires Valid() && e.Valid() && Foot() + e.Foot() <= heap.live && e.Foot() !! Foot()
      modifies this`elements, this`block, heap
      ensures heap.refusals == old(heap.refusals) + if ok then 0 else 1
      ensures !ok ==> unchanged(this) && heap.live == old(heap.live)
      ensures ok ==> Valid() && Data() == old(Data()) + [old(e.View())] && fresh(Held(block))
      ensures ok && old(Named()) && old(e.Named()) ==> Named()
      ensures ok ==> heap.live == old(heap.live) - old(Held(block)) + Held(block)
      ensures ok ==> Foot() == old(Foot()) - old(Held(block)) + (Held(block) + old(e.Foot()))
    {
      var newElements := Regrow(heap, block);
      ok := newElements != null;
      if ok {
        block := newElements;
        elements := elements + [e];
        Grown(e);
      }
    }

    /** One more element is attached, in the same array or a new one. */
    twostate lemma Grown(e: Element)
      requires old(Valid()) && old(e.Valid()) && old(e.Foot()) !! old(Foot())
      requires unchanged(e) && unchanged(e.params)
      requires unchanged(old(elements)) && unchanged(old(ParamsOf(elements)))
      requires elements == old(elements) + [e] && message == old(message)
      requires block == old(block) || (block != null && block !in old(Foot()) + old(e.Foot()))
      ensures Valid() && Data() == old(Data()) + [old(e.View())]
      ensures old(Named()) && old(e.Named()) ==> Named()
      ensures Foot() == old(Foot()) - old(Held(block)) + (Held(block) + old(e.Foot()))
    {
      Untouched(old(elements));
      ElementSame(e);
      FeetAppended(old(elements), e);
      ViewsAppended(old(elements), e);
      ApartAppended(old(elements), e);
      assert Mine() == old(Mine()) - old(Held(block)) + Held(block);
      assert Mine() !! ElementFeet(elements);
    }

    method Discard(heap: Heap, e: Element)
      requires e.Valid() && e.Foot() <= heap.live && e.Foot() !! Foot() && Foot() <= heap.live
      modifies heap`live
      ensures heap.live == old(heap.live) - old(e.Foot()) && Foot() <= heap.live
      ensures Foot() == old(Foot()) && Data() == old(Data()) && Valid() == old(Valid()) && Named() == old(Named())
    {
      DestroyElementAndContents(heap, e);
      Same();
    }

    /** Attaches an element just made, or destroys it again: on failure the call leaves nothing behind. */
    method AttachOrDestroy(heap: Heap, e: Element) returns (ok: bool)
      requires Valid() && e.Valid() && Foot() + e.Foot() <= heap.live && e.Foot() !! Foot()
      modifies this`elements, this`block, heap
      ensures heap.refusals >= old(heap.refusals)
      ensures ok || heap.refusals > old(heap.refusals) || HasElement(old(Data()), e.name)
      ensures Valid() && Foot() <= heap.live && Others(heap) == old(Others(heap)) - old(e.Foot())
      ensures fresh(Foot() - old(Foot()) - old(e.Foot()))
      ensures !ok ==> Data() == old(Data()) && heap.live == old(heap.live) - old(e.Foot())
      ensures old(Named()) && old(e.Named()) ==> Named()
      ensures ok ==> !HasElement(old(Data()), e.name) && Data() == old(Data()) + [old(e.View())]
    {
      ok := AddElement(heap, e);
      if ok {
        TakesOver(old(heap.live), heap.live, old(Foot()), Foot(), old(Held(block)), Held(block), old(e.Foot()));
        return;
      }
      Same();
      ElementSame(e);
      Discard(heap, e);
    }

    /** `stumpless_add_new_element`: all or nothing. */
    method AddNewElement(heap: Heap, name: Str) returns (ok: bool)
      requires Valid() && Foot() <= heap.live
      modifies this`elements, this`block, heap
      ensures heap.refusals >= old(heap.refusals)
      ensures ok || heap.refusals > old(heap.refusals) || !ValidElementName(name) || HasElement(old(Data()), name)
      ensures Valid() && Foot() <= heap.live && Others(heap) == old(Others(heap)) && fresh(Foot() - old(Foot()))
      ensures old(Named()) ==> Named()
      ensures !ok ==> Data() == old(Data()) && heap.live == old(heap.live)
      ensures ok ==> ValidElementName(name) && !HasElement(old(Data()), name)
      ensures ok ==> Data() == old(Data()) + [ElementRec(name, [])]
    {
      ghost var foot := Foot();
      var e := NewElement(heap, name);
      Same();
      if e == null {
        return false;
      }
      assert e.Foot() == {e} && Foot() == foot;
      MadeAndTaken(old(heap.live), foot, {e});
      ok := AttachOrDestroy(heap, e);
      assert fresh(Foot() - foot - {e});
    }

    lemma PartsApart(heap: Heap, i: nat)
      requires Valid() && i < |elements|
      ensures elements[i].Valid() && elements[i].Foot() <= Foot()
      ensures forall k | 0 <= k < |elements| && k != i ::
                elements[k].Objects() !! elements[i].Objects() + {heap}
    {
      forall k | 0 <= k < |elements| && k != i
        ensures elements[k].Objects() !! elements[i].Objects() + {heap}
      {
        assert k < i ==> elements[k].Foot() !! elements[i].Foot();
        assert i < k ==> elements[i].Foot() !! elements[k].Foot();
        elements[k].ObjectsOwned();
        elements[i].ObjectsOwned();
      }
    }

    lemma PartOwned(i: nat)
      requires i < |elements|
      ensures elements[i].Objects() <= Foot()
    {
      elements[i].ObjectsOwned();
      assert elements[i].Foot() <= ElementFeet(elements);
    }

    /** One element changed, taking and releasing only blocks of its own. */
    twostate lemma PartChanged(heap: Heap, new i: nat)
      requires old(Valid()) && old(Foot() <= heap.live) && unchanged(this) && i < |elements|
      requires forall k | 0 <= k < |elements| && k != i :: unchanged(elements[k])
      requires forall k | 0 <= k < |elements| && k != i :: unchanged(elements[k].params)
      requires elements[i].Valid() && elements[i].Foot() <= heap.live
      requires elements[i].Others(heap) == old(elements[i].Others(heap))
      requires fresh(elements[i].Foot() - old(elements[i].Foot()))
      ensures Valid() && Foot() <= heap.live && Others(heap) == old(Others(heap)) && fresh(Foot() - old(Foot()))
    {
      ghost var was, now := old(elements[i].Foot()), elements[i].Foot();
      assert was <= old(ElementFeet(elements));
      assert (now - was) !! old(heap.live);
      PartSwapped(i);
      Nested(old(heap.live), heap.live, was, now, old(Foot()), Foot());
    }

    twostate lemma PartSwapped(new i: nat)
      requires old(Valid()) && unchanged(this) && i < |elements|
      requires forall k | 0 <= k < |elements| && k != i :: unchanged(elements[k])
      requires forall k | 0 <= k < |elements| && k != i :: unchanged(elements[k].params)
      requires elements[i].Valid()
      requires forall o | o in elements[i].Foot() && o !in old(elements[i].Foot()) :: o !in old(Foot())
      ensures Valid() && Foot() == old(Foot()) - old(elements[i].Foot()) + elements[i].Foot()
    {
      assert old(elements[i].Foot()) <= old(ElementFeet(elements));
      ElementChanged(elements, i);
    }

    /** The part of the by-name calls that finds the element there. */
    method PutInElement(heap: Heap, i: nat, paramName: Str, value: Str, upsert: bool) returns (ok: bool)
      requires Valid() && (upsert ==> Named()) && Foot() <= heap.live && i < |elements| && NoNul(value)
      modifies elements[i].Objects(), heap
      ensures heap.refusals >= old(heap.refusals)
      ensures ok || heap.refusals > old(heap.refusals) || !ValidParamName(paramName) || !ValidValue(value)
      ensures old(Named()) ==> Named()
      ensures Valid() && Foot() <= heap.live && Others(heap) == old(Others(heap)) && fresh(Foot() - old(Foot()))
      ensures !ok ==> Data() == old(Data()) && heap.live == old(heap.live)
      ensures ok ==> ValidParamName(paramName) && ValidValue(value)
      ensures ok ==> Data() == old(Data())[i := ElementRec(old(elements[i].name),
                                                          PutParams(old(Data())[i].params, paramName, value, upsert))]
    {
      ok := PutPart(heap, i, paramName, value, upsert);
      PartChanged(heap, i);
      ViewsChanged(elements, i);
      NamesKept(i);
    }

    /** The call on the element itself; every other element is as it was. */
    method PutPart(heap: Heap, i: nat, paramName: Str, value: Str, upsert: bool) returns (ok: bool)
      requires Valid() && (upsert ==> Named()) && Foot() <= heap.live && i < |elements| && NoNul(value)
      modifies elements[i].Objects(), heap
      ensures heap.refusals >= old(heap.refusals)
      ensures ok || heap.refusals > old(heap.refusals) || !ValidParamName(paramName) || !ValidValue(value)
      ensures unchanged(this) && forall k | 0 <= k < |elements| && k != i :: unchanged(elements[k])
      ensures forall k | 0 <= k < |elements| && k != i :: unchanged(elements[k].params)
      ensures old(elements[i].Named()) ==> elements[i].Named()
      ensures elements[i].Valid() && elements[i].Foot() <= heap.live
      ensures elements[i].Others(heap) == old(elements[i].Others(heap))
      ensures fresh(elements[i].Foot() - old(elements[i].Foot()))
      ensures !ok ==> elements[i].View() == old(elements[i].View()) && heap.live == old(heap.live)
      ensures ok ==> ValidParamName(paramName) && ValidValue(value)
      ensures ok ==> elements[i].View() == ElementRec(old(elements[i].name),
                                             PutParams(old(Views(elements[i].params)), paramName, value, upsert))
    {
      PartsApart(heap, i);
      ok := elements[i].PutParam(heap, paramName, value, upsert);
      forall k | 0 <= k < |elements| && k != i
        ensures unchanged(elements[k]) && unchanged(elements[k].params)
      {
        assert elements[k] in old(elements[k].Objects());
        assert forall p | p in old(elements[k].params) :: p in old(elements[k].Objects());
      }
    }

    twostate lemma NamesKept(new i: nat)
      requires unchanged(this) && i < |elements| && (old(elements[i].Named()) ==> elements[i].Named())
      requires forall k | 0 <= k < |elements| && k != i :: unchanged(elements[k])
      ensures old(Named()) ==> Named()
    {
    }

    /** The part of the by-name calls that makes the element: what it made is released again on any failure. */
    method PutInNewElement(heap: Heap, elementName: Str, paramName: Str, value: Str, upsert: bool) returns (ok: bool)
      requires Valid() && Foot() <= heap.live && NoNul(value)
      modifies this`elements, this`block, heap
      ensures heap.refusals >= old(heap.refusals)
      ensures ok || heap.refusals > old(heap.refusals) || HasElement(old(Data()), elementName)
           || !ValidElementName(elementName) || !ValidParamName(paramName) || !ValidValue(value)
      ensures old(Named()) ==> Named()
      ensures Valid() && Foot() <= heap.live && Others(heap) == old(Others(heap)) && fresh(Foot() - old(Foot()))
      ensures !ok ==> Data() == old(Data()) && heap.live == old(heap.live)
      ensures ok ==> ValidElementName(elementName) && ValidParamName(paramName) && ValidValue(value)
      ensures ok ==> Data() == old(Data()) + [ElementRec(elementName, [ParamRec(paramName, value)])]
    {
      var e := NewElementWith(heap, elementName, paramName, value, upsert);
      Same();
      if e == null {
        return false;
      }
      MadeAndTaken(old(heap.live), old(Foot()), e.Foot());
      ok := AttachOrDestroy(heap, e);
    }

    method Put(heap: Heap, elementName: Str, paramName: Str, value: Str, upsert: bool) returns (ok: bool)
      requires Valid() && (upsert ==> Named()) && Foot() <= heap.live && NoNul(value)
      modifies Foot(), heap
      ensures heap.refusals >= old(heap.refusals)
      ensures ok || heap.refusals > old(heap.refusals) || !ValidParamName(paramName) || !ValidValue(value)
              || (!ValidElementName(elementName) && !HasElement(old(Data()), elementName))
      ensures old(Named()) ==> Named()
      ensures Valid() && Foot() <= heap.live && Others(heap) == old(Others(heap)) && fresh(Foot() - old(Foot()))
      ensures !ok ==> Data() == old(Data()) && heap.live == old(heap.live)
      ensures ok ==> ValidParamName(paramName) && ValidValue(value)
      ensures ok ==> ValidElementName(elementName) || HasElement(old(Data()), elementName)
      ensures ok ==> Data() == if upsert then Set(old(Data()), elementName, paramName, value)
                               else StructuredData.AddParam(old(Data()), elementName, paramName, value)
    {
      var i := IndexOf(elementName);
      Same();
      ok := PutAt(heap, i, elementName, paramName, value, upsert);
    }

    /** Either by-name call once the element has been looked for. */
    method PutAt(heap: Heap, i: nat, elementName: Str, paramName: Str, value: Str, upsert: bool) returns (ok: bool)
      requires Valid() && (upsert ==> Named()) && Foot() <= heap.live && NoNul(value)
      requires i == FindElement(Data(), elementName)
      modifies Foot(), heap
      ensures heap.refusals >= old(heap.refusals)
      ensures ok || heap.refusals > old(heap.refusals) || !ValidParamName(paramName) || !ValidValue(value)
              || (!ValidElementName(elementName) && !HasElement(old(Data()), elementName))
      ensures old(Named()) ==> Named()
      ensures Valid() && Foot() <= heap.live && Others(heap) == old(Others(heap)) && fresh(Foot() - old(Foot()))
      ensures !ok ==> Data() == old(Data()) && heap.live == old(heap.live)
      ensures ok ==> ValidParamName(paramName) && ValidValue(value)
      ensures ok ==> ValidElementName(elementName) || HasElement(old(Data()), elementName)
      ensures ok ==> Data() == if upsert then Set(old(Data()), elementName, paramName, value)
                               else StructuredData.AddParam(old(Data()), elementName, paramName, value)
    {
      if i < |elements| {
        PartOwned(i);
        ok := PutInElement(heap, i, paramName, value, upsert);
      } else {
        ok := PutInNewElement(heap, elementName, paramName, value, upsert);
      }
    }

    /** `stumpless_set_element`: refuses a bad index, and any name the entry already has, even that of the
        element to be replaced. The replaced element is detached, not destroyed. */
    method SetElement(index: nat, e: Element) returns (ok: bool)
      requires Valid() && e.Valid() && e.Foot() !! Foot()
      modifies this`elements
      ensures ok <==> index < |old(elements)| && !HasElement(old(Data()), e.name)
      ensures !ok ==> unchanged(this)
      ensures ok ==> Valid() && Data() == old(Data())[index := old(e.View())]
      ensures ok ==> Foot() == old(Foot()) - old(elements[index].Foot()) + old(e.Foot())
      ensures old(Named()) && old(e.Named()) ==> Named()
    {
      ok := index < |elements|;
      if ok {
        var i := IndexOf(e.name);
        Same();
        ElementSame(e);
        ok := i == |elements|;
        if ok {
          Swap(index, e);
        }
      }
    }

    method Swap(index: nat, e: Element)
      requires Valid() && e.Valid() && e.Foot() !! Foot() && index < |elements|
      modifies this`elements
      ensures Valid() && Data() == old(Data())[index := old(e.View())]
      ensures Foot() == old(Foot()) - old(elements[index].Foot()) + old(e.Foot())
      ensures old(Named()) && old(e.Named()) ==> Named()
    {
      elements := elements[index := e];
      Replaced(index, e);
      NamedToo(e);
    }

    twostate lemma Replaced(new index: nat, e: Element)
      requires old(Valid()) && index < |old(elements)| && old(e.Valid()) && old(e.Foot()) !! old(Foot())
      requires unchanged(e) && unchanged(e.params)
      requires unchanged(old(elements)) && unchanged(old(ParamsOf(elements)))
      requires elements == old(elements)[index := e] && Mine() == old(Mine())
      ensures Valid() && Data() == old(Data())[index := old(e.View())]
      ensures Foot() == old(Foot()) - old(elements[index].Foot()) + old(e.Foot())
    {
      Untouched(old(elements));
      ElementSame(e);
      ElementSame(old(elements)[index]);
      SwapApart(old(elements), index, e);
      SwapFeet(old(elements), index, e);
      FootOwned(old(elements), index);
    }

    twostate lemma NamedToo(e: Element)
      requires unchanged(e) && unchanged(old(elements))
      requires forall i | 0 <= i < |elements| :: elements[i] == e || elements[i] in old(elements)
      ensures old(Named()) && old(e.Named()) ==> Named()
    {
    }

    /** `stumpless_set_entry_param_value_by_name`: a successful set makes the pair map to the value, by the laws
        of module StructuredData; a failed one changes nothing and leaves no block behind. */
    method SetParamValueByName(heap: Heap, elementName: Str, paramName: Str, value: Str) returns (ok: bool)
      requires Valid() && Named() && Foot() <= heap.live && NoNul(value)
      modifies Foot(), heap
      ensures heap.refusals >= old(heap.refusals)
      ensures ok || heap.refusals > old(heap.refusals) || !ValidParamName(paramName) || !ValidValue(value)
              || (!ValidElementName(elementName) && !HasElement(old(Data()), elementName))
      ensures Named()
      ensures Valid() && Foot() <= heap.live && Others(heap) == old(Others(heap)) && fresh(Foot() - old(Foot()))
      ensures !ok ==> Data() == old(Data()) && heap.live == old(heap.live)
      ensures ok ==> ValidParamName(paramName) && ValidValue(value)
      ensures ok ==> ValidElementName(elementName) || HasElement(old(Data()), elementName)
      ensures ok ==> Data() == Set(old(Data()), elementName, paramName, value)
    {
      ok := Put(heap, elementName, paramName, value, true);
    }

    /** `stumpless_add_new_param_to_entry`. */
    method AddNewParamToEntry(heap: Heap, elementName: Str, paramName: Str, value: Str) returns (ok: bool)
      requires Valid() && Foot() <= heap.live && NoNul(value)
      modifies Foot(), heap
      ensures heap.refusals >= old(heap.refusals)
      ensures ok || heap.refusals > old(heap.refusals)
           || !ValidElementName(elementName) || !ValidParamName(paramName) || !ValidValue(value)
      ensures old(Named()) ==> Named()
      ensures Valid() && Foot() <= heap.live && Others(heap) == old(Others(heap)) && fresh(Foot() - old(Foot()))
      ensures !ok ==> Data() == old(Data()) && heap.live == old(heap.live)
      ensures ok ==> ValidElementName(elementName) && ValidParamName(paramName) && ValidValue(value)
      ensures ok ==> Data() == StructuredData.AddParam(old(Data()), elementName, paramName, value)
    {
      ok := ValidateElementName(elementName);
      Same();
      if ok {
        ok := Put(heap, elementName, paramName, value, false);
      }
    }
  }
}

/** An entry's structured data as an ordered first-match map from (element name, param name) to value: what the
    by-name calls of src/entry.c and src/element.c do to it. */
module StructuredData {
  import opened Bytes
  import opened Records

  /** The first param with the name, or the number of params. */
  function FindParam(ps: seq<ParamRec>, name: Str): (i: nat)
    ensures i <= |ps|
    ensures i < |ps| ==> ps[i].name == name
    ensures forall k | 0 <= k < i :: ps[k].name != name
  {
    if ps == [] || ps[0].name == name then 0 else 1 + FindParam(ps[1..], name)
  }

  function FindElement(es: seq<ElementRec>, name: Str): (i: nat)
    ensures i <= |es|
    ensures i < |es| ==> es[i].name == name
    ensures forall k | 0 <= k < i :: es[k].name != name
  {
    if es == [] || es[0].name == name then 0 else 1 + FindElement(es[1..], name)
  }

  function ParamValue(ps: seq<ParamRec>, name: Str): Option<Str> {
    var j := FindParam(ps, name);
    if j < |ps| then Some(ps[j].value) else None
  }

  /** `stumpless_get_entry_param_value_by_name`. */
  function Lookup(es: seq<ElementRec>, element: Str, param: Str): Option<Str> {
    var i := FindElement(es, element);
    if i < |es| then ParamValue(es[i].params, param) else None
  }

  /** `stumpless_set_param_value_by_name`. */
  function SetParam(ps: seq<ParamRec>, name: Str, value: Str): seq<ParamRec> {
    var j := FindParam(ps, name);
    if j < |ps| then ps[j := ParamRec(name, value)] else ps + [ParamRec(name, value)]
  }

  /** `stumpless_set_entry_param_value_by_name`. */
  function Set(es: seq<ElementRec>, element: Str, param: Str, value: Str): seq<ElementRec> {
    var i := FindElement(es, element);
    if i < |es| then es[i := ElementRec(element, SetParam(es[i].params, param, value))]
    else es + [ElementRec(element, [ParamRec(param, value)])]
  }

  /** `stumpless_add_new_param_to_entry`: always one more param. */
  function AddParam(es: seq<ElementRec>, element: Str, param: Str, value: Str): seq<ElementRec> {
    var i := FindElement(es, element);
    if i < |es| then es[i := ElementRec(element, es[i].params + [ParamRec(param, value)])]
    else es + [ElementRec(element, [ParamRec(param, value)])]
  }

  lemma FindParamIs(ps: seq<ParamRec>, name: Str, i: nat)
    requires i <= |ps| && (i < |ps| ==> ps[i].name == name) && forall k | 0 <= k < i :: ps[k].name != name
    ensures FindParam(ps, name) == i
  {
  }

  lemma FindElementIs(es: seq<ElementRec>, name: Str, i: nat)
    requires i <= |es| && (i < |es| ==> es[i].name == name) && forall k | 0 <= k < i :: es[k].name != name
    ensures FindElement(es, name) == i
  {
  }

  lemma SetParamLookup(ps: seq<ParamRec>, name: Str, value: Str, other: Str)
    ensures ParamValue(SetParam(ps, name, value), other) == if other == name then Some(value) else ParamValue(ps, other)
  {
    var qs := SetParam(ps, name, value);
    var i, j := FindParam(ps, name), FindParam(ps, other);
    if other == name {
      FindParamIs(qs, other, i);
    } else if j < |ps| {
      FindParamIs(qs, other, j);
    } else {
      FindParamIs(qs, other, |qs|);
    }
  }

  /** After a set the pair looks up as the value, and every other pair as before. */
  lemma SetThenLookup(es: seq<ElementRec>, element: Str, param: Str, value: Str, e: Str, p: Str)
    ensures Lookup(Set(es, element, param, value), e, p)
         == if (e, p) == (element, param) then Some(value) else Lookup(es, e, p)
  {
    var fs := Set(es, element, param, value);
    var i, k := FindElement(es, element), FindElement(es, e);
    if e == element {
      FindElementIs(fs, e, i);
      if i < |es| {
        SetParamLookup(es[i].params, param, value, p);
      } else {
        SetParamLookup([], param, value, p);
      }
    } else if k < |es| {
      FindElementIs(fs, e, k);
    } else {
      FindElementIs(fs, e, |fs|);
    }
  }

  /** An add puts exactly the one param behind those the first element of that name had, or, if there is none, into a
      new last element; every other element is as it was, in place. */
  lemma AddParamExactly(es: seq<ElementRec>, element: Str, param: Str, value: Str)
    ensures var fs := AddParam(es, element, param, value);
            && |fs| == |es| + (if HasElement(es, element) then 0 else 1)
            && exists i | 0 <= i < |fs| ::
                 && fs[i].name == element && (forall k | 0 <= k < i :: fs[k].name != element)
                 && (i == |es| || es[i].name == element)
                 && fs[i].params == (if i < |es| then es[i].params else []) + [ParamRec(param, value)]
                 && forall k | 0 <= k < |es| && k != i :: fs[k] == es[k]
  {
    var fs := AddParam(es, element, param, value);
    var i := FindElement(es, element);
    assert HasElement(es, element) <==> i < |es|;
    assert fs[i].params == (if i < |es| then es[i].params else []) + [ParamRec(param, value)];
  }

  lemma AddedParamLookup(ps: seq<ParamRec>, name: Str, value: Str, other: Str)
    ensures ParamValue(ps + [ParamRec(name, value)], other)
         == if other == name && ParamValue(ps, other).None? then Some(value) else ParamValue(ps, other)
  {
    var qs := ps + [ParamRec(name, value)];
    var j := FindParam(ps, other);
    FindParamIs(qs, other, if j == |ps| && other != name then |qs| else j);
  }

  /** After an add the pair looks up as before if it was there, otherwise as the value; every other pair as before. */
  lemma AddThenLookup(es: seq<ElementRec>, element: Str, param: Str, value: Str, e: Str, p: Str)
    ensures Lookup(AddParam(es, element, param, value), e, p)
         == if (e, p) == (element, param) && Lookup(es, e, p).None? then Some(value) else Lookup(es, e, p)
  {
    var fs := AddParam(es, element, param, value);
    var i, k := FindElement(es, element), FindElement(es, e);
    if e == element {
      FindElementIs(fs, e, i);
      var ps := if i < |es| then es[i].params else [];
      assert fs[i].params == ps + [ParamRec(param, value)];
      AddedParamLookup(ps, param, value, p);
    } else {
      FindElementIs(fs, e, if k < |es| then k else |fs|);
    }
  }

  /** Existing elements and params stay in place and in order, under the same names; at most one element and
      one param are appended, and one value at most is replaced. */
  lemma SetKeepsOrder(es: seq<ElementRec>, element: Str, param: Str, value: Str)
    ensures var fs := Set(es, element, param, value);
            var i := FindElement(es, element);
            && |es| <= |fs| <= |es| + 1
            && (forall k | 0 <= k < |es| :: fs[k].name == es[k].name && (k != i ==> fs[k] == es[k]))
            && (forall k | 0 <= k < |es| ::
                  && |es[k].params| <= |fs[k].params| <= |es[k].params| + 1
                  && forall j | 0 <= j < |es[k].params| ::
                       && fs[k].params[j].name == es[k].params[j].name
                       && (j != FindParam(es[k].params, param) ==> fs[k].params[j] == es[k].params[j]))
            && (|fs| > |es| ==> fs[|es|] == ElementRec(element, [ParamRec(param, value)]))
  {
  }

  /** Setting twice is setting once, to the last value. */
  lemma SetTwice(es: seq<ElementRec>, element: Str, param: Str, v: Str, w: Str)
    ensures Set(Set(es, element, param, v), element, param, w) == Set(es, element, param, w)
  {
    var fs := Set(es, element, param, v);
    var i := FindElement(es, element);
    FindElementIs(fs, element, i);
    var ps := if i < |es| then es[i].params else [];
    SetParamTwice(ps, param, v, w);
    if i < |es| {
      var mid, last := SetParam(ps, param, v), SetParam(ps, param, w);
      assert fs == es[i := ElementRec(element, mid)];
      assert fs[i := ElementRec(element, last)] == es[i := ElementRec(element, last)];
    } else {
      assert fs[i].params == [ParamRec(param, v)];
      assert SetParam([ParamRec(param, v)], param, w) == [ParamRec(param, w)];
      assert fs[i := ElementRec(element, [ParamRec(param, w)])] == es + [ElementRec(element, [ParamRec(param, w)])];
    }
  }

  lemma SetParamTwice(ps: seq<ParamRec>, name: Str, v: Str, w: Str)
    ensures SetParam(SetParam(ps, name, v), name, w) == SetParam(ps, name, w)
  {
    FindParamIs(SetParam(ps, name, v), name, FindParam(ps, name));
  }

  // ----- distinct element names

  ghost predicate DistinctNames(es: seq<ElementRec>) {
    forall i, k | 0 <= i < k < |es| :: es[i].name != es[k].name
  }

  predicate HasElement(es: seq<ElementRec>, name: Str) {
    exists i | 0 <= i < |es| :: es[i].name == name
  }

  /** The entry's calls that touch its elements; an element handed in has any params it likes. */
  datatype Call =
    | AddElement(element: ElementRec)
    | SetElement(index: nat, element: ElementRec)
    | SetValue(name: Str, param: Str, value: Str)
    | AddValue(name: Str, param: Str, value: Str)

  /** A call that succeeds; a duplicate name or a bad index makes it fail and change nothing. */
  function Apply(es: seq<ElementRec>, c: Call): seq<ElementRec> {
    match c
    case AddElement(e) => if HasElement(es, e.name) then es else es + [e]
    case SetElement(i, e) => if i >= |es| || HasElement(es, e.name) then es else es[i := e]
    case SetValue(e, p, v) => Set(es, e, p, v)
    case AddValue(e, p, v) => AddParam(es, e, p, v)
  }

  /** A run in which some calls fail for want of memory and change nothing. */
  function Run(es: seq<ElementRec>, calls: seq<(Call, bool)>): seq<ElementRec>
    decreases |calls|
  {
    if calls == [] then es
    else Run(if calls[0].1 then Apply(es, calls[0].0) else es, calls[1..])
  }

  /** What a pair looks up as after calls by name: the last value set, or else the first one added. */
  function LastValue(was: Option<Str>, calls: seq<(Call, bool)>, e: Str, p: Str): Option<Str>
    decreases |calls|
  {
    if calls == [] then was
    else
      var (c, ok) := calls[0];
      var now := if !ok then was
                 else match c
                   case SetValue(name, param, value) => if name == e && param == p then Some(value) else was
                   case AddValue(name, param, value) =>
                     if name == e && param == p && was.None? then Some(value) else was
                   case _ => was;
      LastValue(now, calls[1..], e, p)
  }

  /** Over every run of calls by name, any of them failing, each pair looks up as the calls on that very pair say. */
  lemma {:induction false} RunLookup(es: seq<ElementRec>, calls: seq<(Call, bool)>, e: Str, p: Str)
    requires forall i | 0 <= i < |calls| :: calls[i].0.SetValue? || calls[i].0.AddValue?
    ensures Lookup(Run(es, calls), e, p) == LastValue(Lookup(es, e, p), calls, e, p)
    decreases |calls|
  {
    if calls != [] {
      var (c, ok) := calls[0];
      if c.SetValue? {
        SetThenLookup(es, c.name, c.param, c.value, e, p);
      } else {
        AddThenLookup(es, c.name, c.param, c.value, e, p);
      }
      RunLookup(if ok then Apply(es, c) else es, calls[1..], e, p);
    }
  }

  /** Over every run, an entry never holds two elements of one name (section 6.3.2 of RFC 5424). */
  lemma {:induction false} NamesStayDistinct(es: seq<ElementRec>, calls: seq<(Call, bool)>)
    requires DistinctNames(es)
    ensures DistinctNames(Run(es, calls))
    decreases |calls|
  {
    if calls != [] {
      NamesStayDistinct(if calls[0].1 then Apply(es, calls[0].0) else es, calls[1..]);
    }
  }

  /** With distinct names there is nothing behind a first match: a lookup finds the one element of that name. */
  lemma LookupSeesAll(es: seq<ElementRec>, i: nat, param: Str)
    requires DistinctNames(es) && i < |es|
    ensures Lookup(es, es[i].name, param) == ParamValue(es[i].params, param)
  {
    FindElementIs(es, es[i].name, i);
  }
}

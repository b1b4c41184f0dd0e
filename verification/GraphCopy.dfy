/** Deep copies of elements and entries, after src/element.c and src/entry.c. */
module GraphCopy {
  import opened Privals
  import opened Bytes
  import opened Records
  import opened Allocation
  import opened Validate
  import opened Graph
  import Params

  /** `strlen` and `memcpy` on a name in a fixed array: past the array, if there is no terminator in it. */
  method ReadName(name: CText, tail: Tail) returns (found: CText)
    ensures Reads(found, name, tail)
  {
    match CString(name + tail) {
      case Some(s) => found := s;
      case None =>
        var beyond: CText := *;
        found := TextJoin(name + tail, beyond);
    }
  }

  function TextJoin(a: CText, b: CText): CText {
    a + b
  }

  // ----- what a copy holds: every value, and every name as a C string read finds it

  ghost predicate ParamCopied(now: ParamRec, was: ParamRec, tail: Tail) {
    now.value == was.value && Reads(now.name, was.name, tail)
  }

  ghost predicate ParamsCopied(now: seq<ParamRec>, was: seq<ParamRec>, tails: seq<Tail>) {
    |now| == |was| == |tails| && forall i {:trigger ParamCopied(now[i], was[i], tails[i])} | 0 <= i < |now| ::
      ParamCopied(now[i], was[i], tails[i])
  }

  ghost predicate ElementCopied(now: ElementRec, was: ElementRec, tails: seq<Tail>) {
    now.name == was.name && ParamsCopied(now.params, was.params, tails)
  }

  ghost predicate ElementsCopied(now: seq<ElementRec>, was: seq<ElementRec>, tails: seq<seq<Tail>>) {
    |now| == |was| == |tails| && forall i {:trigger ElementCopied(now[i], was[i], tails[i])} | 0 <= i < |now| ::
      ElementCopied(now[i], was[i], tails[i])
  }

  /** A param that `stumpless_new_param` would take again. */
  predicate GoodParam(p: ParamRec, tail: Tail) {
    tail[0] == NUL && ValidParamName(p.name) && ValidValue(p.value)
  }

  predicate GoodElement(e: ElementRec, tails: seq<Tail>) {
    ValidElementName(e.name) && |tails| == |e.params| && forall i | 0 <= i < |tails| :: GoodParam(e.params[i], tails[i])
  }

  predicate AllTerminated(tails: seq<Tail>) {
    forall i | 0 <= i < |tails| :: tails[i][0] == NUL
  }

  ghost predicate TextNames(ps: seq<ParamRec>) {
    forall i | 0 <= i < |ps| :: NoNul(ps[i].name)
  }

  /** A copy is equal to the original if and only if every name has its terminator right behind it. */
  lemma ParamsKept(now: seq<ParamRec>, was: seq<ParamRec>, tails: seq<Tail>)
    requires ParamsCopied(now, was, tails) && TextNames(was)
    ensures now == was <==> AllTerminated(tails)
  {
    forall i | 0 <= i < |now| ensures now[i] == was[i] <==> tails[i][0] == NUL {
      assert ParamCopied(now[i], was[i], tails[i]);
      ReadsTheName(now[i].name, was[i].name, tails[i]);
    }
  }

  lemma ElementsKept(now: seq<ElementRec>, was: seq<ElementRec>, tails: seq<seq<Tail>>)
    requires ElementsCopied(now, was, tails) && forall i | 0 <= i < |was| :: TextNames(was[i].params)
    ensures now == was <==> forall i | 0 <= i < |tails| :: AllTerminated(tails[i])
  {
    forall i | 0 <= i < |now| ensures now[i] == was[i] <==> AllTerminated(tails[i]) {
      assert ElementCopied(now[i], was[i], tails[i]);
      ParamsKept(now[i].params, was[i].params, tails[i]);
    }
  }

  /** A param that was parsed from `a="x"` into memory that held `bc` there: its name is `a`, its copy's is `abc`. */
  lemma ParsedNameIsNotKept()
    ensures Params.Parse([97, EQUALS, QUOTE, 120, QUOTE]) == Params.Parsed(ParamRec([97], [120]))
    ensures var tail: Tail := [98, 99, NUL];
            !AllTerminated([tail])
            && forall now :: ParamCopied(now, ParamRec([97], [120]), tail) <==> now == ParamRec([97, 98, 99], [120])
  {
    Params.ParsePrinted(ParamRec([97], [120]));
    assert Params.Printed(ParamRec([97], [120])) == [97, EQUALS, QUOTE, 120, QUOTE];
    var tail: Tail := [98, 99, NUL];
    CStringAt([97, 98, 99], [NUL]);
    assert [97] + tail == [97, 98, 99] + [NUL];
    assert CString([97] + tail) == Some([97, 98, 99]) && tail[0] != NUL;
    assert [tail][0] == tail;
  }

  /** `stumpless_copy_param`. */
  method CopyParam(heap: Heap, name: CText, tail: Tail, value: CText) returns (q: Param?, ghost made: ParamRec)
    modifies heap
    ensures heap.refusals >= old(heap.refusals)
    ensures q != null || heap.refusals > old(heap.refusals) || !GoodParam(ParamRec(name, value), tail)
    ensures q == null ==> heap.live == old(heap.live)
    ensures q != null ==>
      && fresh(q) && fresh(q.value) && q.View() == made && q.Terminated() && heap.live == old(heap.live) + q.Foot()
      && ParamCopied(made, ParamRec(name, value), tail)
  {
    var found := ReadName(name, tail);
    ReadsTheName(found, name, tail);
    made := ParamRec(found, value);
    q := NewParam(heap, found, value);
  }

  /** One round of the copying loop: a copy of the param goes into the array already allocated. */
  method CopyOne(heap: Heap, copy: Element, p: Param) returns (ok: bool, ghost made: ParamRec)
    requires copy.Valid() && copy.Named() && copy.Foot() <= heap.live
    modifies copy`params, heap
    ensures heap.refusals >= old(heap.refusals)
    ensures ok || heap.refusals > old(heap.refusals) || !GoodParam(old(p.View()), p.tail)
    ensures copy.Valid() && copy.Named() && copy.Foot() <= heap.live && copy.Others(heap) == old(copy.Others(heap))
    ensures fresh(copy.Foot() - old(copy.Foot()))
    ensures ok ==> Views(copy.params) == old(Views(copy.params)) + [made] && ParamCopied(made, old(p.View()), p.tail)
  {
    var q: Param?;
    q, made := CopyParam(heap, p.name, p.tail, p.value.text);
    ElementSame(copy);
    ok := q != null;
    if ok {
      label Made:
      copy.params := copy.params + [q];
      copy.Attached@Made(q);
      Accounts(old(heap.live), heap.live, old(copy.Foot()), copy.Foot(), {}, q.Foot());
    }
  }

  /** The i-th round: what is copied so far are copies of the original's first params. */
  method CopyNth(heap: Heap, copy: Element, e: Element, i: nat, ghost views: seq<ParamRec>, ghost tails: seq<Tail>)
    returns (ok: bool)
    requires copy.Valid() && copy.Named() && copy.Foot() <= heap.live && e != copy
    requires i < |e.params| == |views| == |tails| && e.params[i].View() == views[i] && e.params[i].tail == tails[i]
    requires ParamsCopied(Views(copy.params), views[..i], tails[..i])
    modifies copy`params, heap
    ensures heap.refusals >= old(heap.refusals)
    ensures ok || heap.refusals > old(heap.refusals) || !GoodParam(views[i], tails[i])
    ensures copy.Valid() && copy.Named() && copy.Foot() <= heap.live && copy.Others(heap) == old(copy.Others(heap))
    ensures fresh(copy.Foot() - old(copy.Foot()))
    ensures ok ==> ParamsCopied(Views(copy.params), views[..i + 1], tails[..i + 1])
  {
    ghost var done, made := Views(copy.params), ParamRec([], []);
    ok, made := CopyOne(heap, copy, e.params[i]);
    if ok {
      OneMoreCopied(done, made, views, tails, i);
    }
  }

  lemma OneMoreCopied(done: seq<ParamRec>, made: ParamRec, views: seq<ParamRec>, tails: seq<Tail>, i: nat)
    requires i < |views| == |tails| && ParamsCopied(done, views[..i], tails[..i])
    requires ParamCopied(made, views[i], tails[i])
    ensures ParamsCopied(done + [made], views[..i + 1], tails[..i + 1])
  {
    assert forall k | 0 <= k < i :: done[k] == (done + [made])[k] && ParamCopied(done[k], views[..i][k], tails[..i][k]);
  }

  /** The copying loop; on failure what was copied so far is still attached, to be destroyed with the copy. */
  method CopyParams(heap: Heap, copy: Element, e: Element) returns (ok: bool, ghost bad: nat)
    requires copy.Valid() && copy.Foot() <= heap.live && copy.params == [] && e != copy
    modifies copy`params, heap
    ensures heap.refusals >= old(heap.refusals)
    ensures ok || heap.refusals > old(heap.refusals) || bad < |e.params|
    ensures ok || heap.refusals > old(heap.refusals) || !GoodParam(old(Views(e.params))[bad], e.Tails()[bad])
    ensures copy.Valid() && copy.Named() && copy.Foot() <= heap.live && copy.Others(heap) == old(copy.Others(heap))
    ensures fresh(copy.Foot() - old(copy.Foot()))
    ensures ok ==> ParamsCopied(Views(copy.params), old(Views(e.params)), e.Tails())
  {
    ghost var views, tails := Views(e.params), e.Tails();
    bad := 0;
    for i := 0 to |e.params|
      invariant heap.refusals >= old(heap.refusals)
      invariant copy.Valid() && copy.Named() && copy.Foot() <= heap.live && copy.Others(heap) == old(copy.Others(heap))
      invariant fresh(copy.Foot() - old(copy.Foot()))
      invariant ParamsCopied(Views(copy.params), views[..i], tails[..i])
    {
      ok := CopyNth(heap, copy, e, i, views, tails);
      bad := i;
      if !ok {
        return;
      }
    }
    ok := true;
    assert views[..|views|] == views && tails[..|tails|] == tails;
  }

  /** The copy without its params: the element, and an array for as many as there will be. */
  method NewCopy(heap: Heap, name: Str) returns (copy: Element?)
    modifies heap
    ensures heap.refusals >= old(heap.refusals)
    ensures copy != null || heap.refusals > old(heap.refusals) || !ValidElementName(name)
    ensures copy == null ==> heap.live == old(heap.live)
    ensures copy != null ==>
      && fresh(copy) && copy.Valid() && fresh(copy.Foot()) && copy.params == [] && copy.name == name
      && copy.Foot() <= heap.live && copy.Others(heap) == old(heap.live)
  {
    copy := NewElement(heap, name);
    if copy != null {
      copy.block := Regrow(heap, null);
      if copy.block == null {
        DestroyElementAndContents(heap, copy);
        copy := null;
      } else {
        assert copy.Foot() == {copy} + Held(copy.block);
      }
    }
  }

  /** `stumpless_copy_element`: a copy made of blocks of its own, or nothing. It reads like the original if and only if
      every param's name has its terminator, and its own names always have. */
  method CopyElement(heap: Heap, e: Element) returns (copy: Element?)
    requires e.Valid()
    modifies heap
    ensures heap.refusals >= old(heap.refusals)
    ensures copy != null || heap.refusals > old(heap.refusals) || !GoodElement(old(e.View()), old(e.Tails()))
    ensures copy == null ==> heap.live == old(heap.live)
    ensures copy != null ==>
      && copy.Valid() && copy.Named() && fresh(copy.Foot()) && heap.live == old(heap.live) + copy.Foot()
      && ElementCopied(copy.View(), old(e.View()), e.Tails())
      && (copy.View() == old(e.View()) <==> e.Named())
  {
    copy := NewCopy(heap, e.name);
    ElementSame(e);
    if copy != null {
      var ok;
      ghost var bad;
      ok, bad := CopyParams(heap, copy, e);
      PlusFoot(old(heap.live), heap.live, copy.Foot());
      if !ok {
        DestroyElementAndContents(heap, copy);
        copy := null;
      } else {
        CopyReads(copy, e, old(e.View()));
      }
    }
  }

  lemma CopyReads(copy: Element, e: Element, was: ElementRec)
    requires ElementCopied(copy.View(), was, e.Tails()) && was == e.View()
    ensures copy.View() == was <==> e.Named()
  {
    assert forall j | 0 <= j < |e.params| :: was.params[j] == e.params[j].View();
    ParamsKept(copy.View().params, was.params, e.Tails());
    TailsNamed(e);
  }

  lemma TailsNamed(e: Element)
    ensures e.Named() <==> AllTerminated(e.Tails())
  {
    assert forall j | 0 <= j < |e.params| :: e.Tails()[j] == e.params[j].tail;
  }

  /** What formatting gave becomes the message, if there was one to format; there is no host name and no process id. */
  predicate HasOnly(e: Entry, message: Option<CText>)
    reads e
  {
    && (if e.message == null then message.None? else message == Some(e.message.text))
    && e.hostname == [] && e.procid == []
  }

  /** `stumpless_new_entry`, for a message already formatted. */
  method NewEntry(heap: Heap, facility: int, severity: int, appName: CText, msgid: CText, message: Option<CText>)
    returns (e: Entry?)
    modifies heap
    ensures heap.refusals >= old(heap.refusals)
    ensures e != null || heap.refusals > old(heap.refusals) || !ValidAppName(appName) || !ValidMsgid(msgid)
    ensures e == null ==> heap.live == old(heap.live)
    ensures e != null ==>
      && fresh(e) && fresh(e.Foot()) && e.Valid() && e.elements == [] && e.block == null
      && e.prival == GetPrival(facility, severity) && e.appName == appName && e.msgid == msgid
      && e.appTail[0] == NUL && e.msgidTail[0] == NUL && ValidAppName(appName) && ValidMsgid(msgid)
      && HasOnly(e, message) && e.Foot() <= heap.live && e.Others(heap) == old(heap.live)
  {
    var text: Text? := null;
    if message.Some? {
      text := NewText(heap, message.value);
      if text == null { return null; }
    }
    var ok := heap.Granted();
    if ok {
      ok := |appName| <= MAX_APP_NAME_LENGTH;
    }
    if ok {
      ok := ValidatePrintableAscii(appName);
    }
    if ok {
      ok := |msgid| <= MAX_MSGID_LENGTH;
    }
    if ok {
      ok := ValidatePrintableAscii(msgid);
    }
    if ok {
      ok := heap.Granted();
    }
    if !ok {
      if text != null {
        heap.Free(text);
      }
      return null;
    }
    var appRest := Garbage(MAX_APP_NAME_LENGTH - |appName|);
    var msgidRest := Garbage(MAX_MSGID_LENGTH - |msgid|);
    e := new Entry(GetPrival(facility, severity), appName, [NUL] + appRest, msgid, [NUL] + msgidRest, text);
    heap.Adopt(e);
    assert e.Foot() == {e} + if text == null then {} else {text};
  }

  /** `stumpless_destroy_entry_and_contents`: every block of the footprint is freed, each once. */
  method DestroyEntryAndContents(heap: Heap, e: Entry)
    requires e.Valid() && e.Foot() <= heap.live
    modifies heap`live
    ensures heap.live == old(heap.live) - old(e.Foot())
  {
    DestroyElements(heap, e.elements);
    if e.block != null {
      heap.Free(e.block);
    }
    if e.message != null {
      heap.Free(e.message);
    }
    heap.Free(e);
  }

  lemma FeetStep(es: seq<Element>, i: nat)
    requires ElementsApart(es) && i < |es|
    ensures ElementFeet(es[..i + 1]) == ElementFeet(es[..i]) + es[i].Foot()
    ensures es[i].Foot() !! ElementFeet(es[..i]) && es[i].Foot() <= ElementFeet(es)
  {
    assert es[..i + 1] == es[..i] + [es[i]];
    FeetAppended(es[..i], es[i]);
  }

  /** Destroys one element more of those not yet destroyed. */
  method DestroyNth(heap: Heap, es: seq<Element>, i: nat, ghost live0: set<object>)
    requires ElementsApart(es) && ElementFeet(es) <= live0 && i < |es|
    requires heap.live == live0 - ElementFeet(es[..i])
    modifies heap`live
    ensures heap.live == live0 - ElementFeet(es[..i + 1])
  {
    FeetStep(es, i);
    DestroyElementAndContents(heap, es[i]);
    Untouched(es[..i + 1]);
  }

  method DestroyElements(heap: Heap, es: seq<Element>)
    requires ElementsApart(es) && ElementFeet(es) <= heap.live
    modifies heap`live
    ensures heap.live == old(heap.live) - old(ElementFeet(es))
  {
    for i := 0 to |es|
      invariant heap.live == old(heap.live) - ElementFeet(es[..i])
    {
      Untouched(es);
      DestroyNth(heap, es, i, old(heap.live));
    }
    Untouched(es);
    assert es[..|es|] == es;
  }

  function EntryTails(es: seq<Element>): (tails: seq<seq<Tail>>)
    reads es
    ensures |tails| == |es| && forall i | 0 <= i < |es| :: tails[i] == es[i].Tails()
  {
    if es == [] then [] else [es[0].Tails()] + EntryTails(es[1..])
  }

  /** One round of the entry's copying loop: the array is already allocated. */
  method CopyOneElement(heap: Heap, copy: Entry, e: Element) returns (ok: bool, ghost made: ElementRec)
    requires copy.Valid() && copy.Named() && copy.Foot() <= heap.live && e.Valid()
    modifies copy`elements, heap
    ensures heap.refusals >= old(heap.refusals)
    ensures ok || heap.refusals > old(heap.refusals) || !GoodElement(old(e.View()), old(e.Tails()))
    ensures copy.Valid() && copy.Named() && copy.Foot() <= heap.live && copy.Others(heap) == old(copy.Others(heap))
    ensures fresh(copy.Foot() - old(copy.Foot()))
    ensures ok ==> copy.Data() == old(copy.Data()) + [made] && ElementCopied(made, old(e.View()), e.Tails())
  {
    var q := CopyElement(heap, e);
    copy.Same();
    ok := q != null;
    made := if ok then q.View() else ElementRec([], []);
    if ok {
      copy.Push(q);
      Accounts(old(heap.live), heap.live, old(copy.Foot()), copy.Foot(), {}, heap.live - old(heap.live));
    }
  }

  /** The i-th round: what is copied so far are copies of the original's first elements. */
  method CopyNthElement(heap: Heap, copy: Entry, e: Element, i: nat, ghost views: seq<ElementRec>,
                        ghost tails: seq<seq<Tail>>)
    returns (ok: bool)
    requires copy.Valid() && copy.Named() && copy.Foot() <= heap.live && e.Valid()
    requires i < |views| == |tails| && e.View() == views[i] && e.Tails() == tails[i]
    requires ElementsCopied(copy.Data(), views[..i], tails[..i])
    modifies copy`elements, heap
    ensures heap.refusals >= old(heap.refusals)
    ensures ok || heap.refusals > old(heap.refusals) || !GoodElement(views[i], tails[i])
    ensures copy.Valid() && copy.Named() && copy.Foot() <= heap.live && copy.Others(heap) == old(copy.Others(heap))
    ensures fresh(copy.Foot() - old(copy.Foot()))
    ensures ok ==> ElementsCopied(copy.Data(), views[..i + 1], tails[..i + 1])
  {
    ghost var done, made := copy.Data(), ElementRec([], []);
    ok, made := CopyOneElement(heap, copy, e);
    if ok {
      OneMoreElementCopied(done, made, views, tails, i);
    }
  }

  lemma OneMoreElementCopied(done: seq<ElementRec>, made: ElementRec, views: seq<ElementRec>,
                             tails: seq<seq<Tail>>, i: nat)
    requires i < |views| == |tails| && ElementsCopied(done, views[..i], tails[..i])
    requires ElementCopied(made, views[i], tails[i])
    ensures ElementsCopied(done + [made], views[..i + 1], tails[..i + 1])
  {
    assert forall k | 0 <= k < i ::
        done[k] == (done + [made])[k] && ElementCopied(done[k], views[..i][k], tails[..i][k]);
  }

  /** An element that would not be taken again. */
  predicate BadElement(es: seq<ElementRec>, tails: seq<seq<Tail>>, bad: nat) {
    bad < |es| && bad < |tails| && !GoodElement(es[bad], tails[bad])
  }

  method CopyElements(heap: Heap, copy: Entry, e: Entry) returns (ok: bool, ghost bad: nat)
    requires copy.Valid() && copy.Foot() <= heap.live && copy.elements == []
    requires e.Valid() && e != copy
    modifies copy`elements, heap
    ensures heap.refusals >= old(heap.refusals)
    ensures ok || heap.refusals > old(heap.refusals) || BadElement(old(e.Data()), old(EntryTails(e.elements)), bad)
    ensures copy.Valid() && copy.Named() && copy.Foot() <= heap.live && copy.Others(heap) == old(copy.Others(heap))
    ensures fresh(copy.Foot() - old(copy.Foot()))
    ensures ok ==> ElementsCopied(copy.Data(), old(e.Data()), old(EntryTails(e.elements)))
  {
    ghost var views, tails := e.Data(), EntryTails(e.elements);
    bad := 0;
    for i := 0 to |e.elements|
      invariant heap.refusals >= old(heap.refusals)
      invariant copy.Valid() && copy.Named() && copy.Foot() <= heap.live && copy.Others(heap) == old(copy.Others(heap))
      invariant fresh(copy.Foot() - old(copy.Foot()))
      invariant ElementsCopied(copy.Data(), views[..i], tails[..i])
    {
      ElementSame(e.elements[i]);
      ghost var mid := copy.Foot();
      ok := CopyNthElement(heap, copy, e.elements[i], i, views, tails);
      assert copy.Foot() - old(copy.Foot()) <= (copy.Foot() - mid) + (mid - old(copy.Foot()));
      bad := i;
      if !ok {
        return;
      }
    }
    ok := true;
    assert views[..|views|] == views && tails[..|tails|] == tails;
  }

  /** The copy without its elements or its array, for names already read. The message is what formatting the original's
      message gave. */
  method NewBareCopy(heap: Heap, e: Entry, appName: CText, msgid: CText, formatted: CText) returns (copy: Entry?)
    modifies heap
    ensures heap.refusals >= old(heap.refusals)
    ensures copy != null || heap.refusals > old(heap.refusals) || !ValidAppName(appName) || !ValidMsgid(msgid)
    ensures copy == null ==> heap.live == old(heap.live)
    ensures copy != null ==>
      && fresh(copy) && copy.Valid() && fresh(copy.Foot()) && copy.elements == [] && copy.block == null
      && copy.prival == old(e.prival) % 256 && copy.appName == appName && copy.msgid == msgid
      && HasOnly(copy, if old(e.message) == null then None else Some(formatted))
      && copy.Foot() <= heap.live && copy.Others(heap) == old(heap.live)
  {
    var message := if e.message == null then None else Some(formatted);
    PrivalSurvives(e.prival);
    copy := NewEntry(heap, GetFacility(e.prival), GetSeverity(e.prival), appName, msgid, message);
  }

  /** The array for as many elements as there will be, or the copy is destroyed again. */
  method GiveBlock(heap: Heap, copy: Entry) returns (ok: bool)
    requires copy.Valid() && copy.Foot() <= heap.live && copy.elements == [] && copy.block == null
    modifies copy`block, heap
    ensures heap.refusals == old(heap.refusals) + if ok then 0 else 1
    ensures !ok ==> heap.live == old(copy.Others(heap))
    ensures ok ==> copy.Valid() && copy.Foot() <= heap.live && copy.Others(heap) == old(copy.Others(heap))
    ensures ok ==> fresh(copy.Foot() - old(copy.Foot()))
  {
    copy.block := Regrow(heap, null);
    ok := copy.block != null;
    if !ok {
      DestroyEntryAndContents(heap, copy);
    }
  }

  twostate lemma SameTails(es: seq<Element>)
    requires unchanged(es)
    ensures EntryTails(es) == old(EntryTails(es))
  {
  }

  /** The copy with an array, and no elements yet. */
  method NewEmptyCopy(heap: Heap, e: Entry, appName: CText, msgid: CText, formatted: CText) returns (copy: Entry?)
    modifies heap
    ensures heap.refusals >= old(heap.refusals)
    ensures copy != null || heap.refusals > old(heap.refusals) || !ValidAppName(appName) || !ValidMsgid(msgid)
    ensures copy == null ==> heap.live == old(heap.live)
    ensures copy != null ==>
      && fresh(copy) && copy.Valid() && fresh(copy.Foot()) && copy.elements == []
      && copy.prival == old(e.prival) % 256 && copy.appName == appName && copy.msgid == msgid
      && HasOnly(copy, if old(e.message) == null then None else Some(formatted))
      && copy.Foot() <= heap.live && copy.Others(heap) == old(heap.live)
  {
    copy := NewBareCopy(heap, e, appName, msgid, formatted);
    if copy != null {
      var ok := GiveBlock(heap, copy);
      if !ok { return null; }
    }
  }

  /** The original is none the worse for it. */
  method StartCopy(heap: Heap, e: Entry, appName: CText, msgid: CText, formatted: CText) returns (copy: Entry?)
    requires e.Valid()
    modifies heap
    ensures e.Valid() && e.Data() == old(e.Data()) && EntryTails(e.elements) == old(EntryTails(e.elements))
    ensures heap.refusals >= old(heap.refusals)
    ensures copy != null || heap.refusals > old(heap.refusals) || !ValidAppName(appName) || !ValidMsgid(msgid)
    ensures copy == null ==> heap.live == old(heap.live)
    ensures copy != null ==>
      && fresh(copy) && copy.Valid() && fresh(copy.Foot()) && copy.elements == []
      && copy.prival == old(e.prival) % 256 && copy.appName == appName && copy.msgid == msgid
      && HasOnly(copy, if old(e.message) == null then None else Some(formatted))
      && copy.Foot() <= heap.live && copy.Others(heap) == old(heap.live)
  {
    copy := NewEmptyCopy(heap, e, appName, msgid, formatted);
    e.Same();
    SameTails(e.elements);
  }

  /** All elements go into the copy, or it is destroyed. */
  method FillCopy(heap: Heap, copy: Entry, e: Entry) returns (ok: bool, ghost bad: nat)
    requires copy.Valid() && copy.Foot() <= heap.live && copy.elements == []
    requires e.Valid() && e != copy
    modifies copy`elements, heap
    ensures heap.refusals >= old(heap.refusals)
    ensures ok || heap.refusals > old(heap.refusals) || BadElement(old(e.Data()), old(EntryTails(e.elements)), bad)
    ensures !ok ==> heap.live == old(copy.Others(heap))
    ensures ok ==>
      && copy.Valid() && copy.Named() && fresh(copy.Foot() - old(copy.Foot()))
      && heap.live == old(copy.Others(heap)) + copy.Foot()
      && ElementsCopied(copy.Data(), old(e.Data()), old(EntryTails(e.elements)))
  {
    ok, bad := CopyElements(heap, copy, e);
    PlusFoot(old(copy.Others(heap)), heap.live, copy.Foot());
    if !ok {
      DestroyEntryAndContents(heap, copy);
    }
  }

  /** Names that `stumpless_new_entry` would take again. */
  predicate GoodNames(e: Entry)
    reads e
  {
    e.appTail[0] == NUL && e.msgidTail[0] == NUL && ValidAppName(e.appName) && ValidMsgid(e.msgid)
  }

  /** The copy for names already read. */
  method CopyWithNames(heap: Heap, e: Entry, appName: CText, msgid: CText, formatted: CText)
    returns (copy: Entry?, ghost bad: nat)
    requires e.Valid()
    modifies heap
    ensures heap.refusals >= old(heap.refusals)
    ensures copy != null || heap.refusals > old(heap.refusals) || !ValidAppName(appName) || !ValidMsgid(msgid)
         || BadElement(old(e.Data()), old(EntryTails(e.elements)), bad)
    ensures copy == null ==> heap.live == old(heap.live)
    ensures copy != null ==>
      && copy.Valid() && copy.Named() && fresh(copy.Foot()) && heap.live == old(heap.live) + copy.Foot()
      && ElementsCopied(copy.Data(), old(e.Data()), old(EntryTails(e.elements)))
      && copy.prival == old(e.prival) % 256 && copy.appName == appName && copy.msgid == msgid
      && HasOnly(copy, if old(e.message) == null then None else Some(formatted))
  {
    bad := 0;
    copy := StartCopy(heap, e, appName, msgid, formatted);
    if copy == null { return; }
    var ok;
    ok, bad := FillCopy(heap, copy, e);
    if !ok {
      copy := null;
    }
  }

  /** `stumpless_copy_entry`: the low byte of the prival, and the names and structured data as C string reads find them,
      in blocks of its own, or nothing. Each part is the original's if and only if its names have their terminators. It
      fails only for a refused allocation, or a name or value that would not be taken again, `bad` being such an
      element. */
  method CopyEntry(heap: Heap, e: Entry, formatted: CText) returns (copy: Entry?, ghost bad: nat)
    requires e.Valid()
    modifies heap
    ensures heap.refusals >= old(heap.refusals)
    ensures copy != null || heap.refusals > old(heap.refusals) || !old(GoodNames(e))
         || BadElement(old(e.Data()), old(EntryTails(e.elements)), bad)
    ensures copy == null ==> heap.live == old(heap.live)
    ensures copy != null ==>
      && copy.Valid() && copy.Named() && fresh(copy.Foot()) && heap.live == old(heap.live) + copy.Foot()
      && ElementsCopied(copy.Data(), old(e.Data()), old(EntryTails(e.elements)))
      && (copy.Data() == old(e.Data()) <==> old(e.Named())) && copy.prival == old(e.prival) % 256
      && HasOnly(copy, if old(e.message) == null then None else Some(formatted))
      && Reads(copy.appName, old(e.appName), e.appTail) && (copy.appName == old(e.appName) <==> e.appTail[0] == NUL)
      && Reads(copy.msgid, old(e.msgid), e.msgidTail) && (copy.msgid == old(e.msgid) <==> e.msgidTail[0] == NUL)
  {
    NamedTails(e.elements);
    NamesAreText(e.elements);
    ghost var data, tails := e.Data(), EntryTails(e.elements);
    var appName := ReadName(e.appName, e.appTail);
    var msgid := ReadName(e.msgid, e.msgidTail);
    e.Same();
    SameTails(e.elements);
    ReadsTheName(appName, e.appName, e.appTail);
    ReadsTheName(msgid, e.msgid, e.msgidTail);
    copy, bad := CopyWithNames(heap, e, appName, msgid, formatted);
    if copy != null {
      DataKept(copy, data, tails);
    }
  }

  lemma DataKept(copy: Entry, was: seq<ElementRec>, tails: seq<seq<Tail>>)
    requires ElementsCopied(copy.Data(), was, tails) && forall i | 0 <= i < |was| :: TextNames(was[i].params)
    ensures copy.Data() == was <==> forall i | 0 <= i < |tails| :: AllTerminated(tails[i])
  {
    ElementsKept(copy.Data(), was, tails);
  }

  lemma NamedTails(es: seq<Element>)
    ensures ElementsNamed(es) <==> forall i | 0 <= i < |EntryTails(es)| :: AllTerminated(EntryTails(es)[i])
  {
    if es != [] {
      TailsNamed(es[0]);
      NamedTails(es[1..]);
      assert EntryTails(es) == [es[0].Tails()] + EntryTails(es[1..]);
      assert ElementsNamed(es) <==> es[0].Named() && ElementsNamed(es[1..]) by {
        assert forall i | 1 <= i < |es| :: es[i] == es[1..][i - 1];
      }
      TailsSplit(EntryTails(es));
    }
  }

  lemma TailsSplit(tails: seq<seq<Tail>>)
    requires tails != []
    ensures (forall i | 0 <= i < |tails| :: AllTerminated(tails[i]))
       <==> AllTerminated(tails[0]) && forall i | 0 <= i < |tails[1..]| :: AllTerminated(tails[1..][i])
  {
    assert forall i | 1 <= i < |tails| :: tails[i] == tails[1..][i - 1];
  }

  lemma NamesAreText(es: seq<Element>)
    ensures forall i | 0 <= i < |es| :: TextNames(ElementViews(es)[i].params)
  {
    forall i | 0 <= i < |es| ensures TextNames(ElementViews(es)[i].params) {
      assert ElementViews(es)[i] == es[i].View();
    }
  }

  /** Entries that share no object: whatever happens to every object of one, the other still reads the same. */
  method DisturbOne(a: Entry, b: Entry)
    requires b.Valid() && a.Foot() !! b.Foot()
    modifies a.Foot()
    ensures b.View() == old(b.View()) && b.Foot() == old(b.Foot()) && b.Valid()
  {
    b.AllOwned();
    modify a.Foot();
    b.Same();
  }

  /** A copy shares no object with its original, so any later update to either leaves the other's contents,
      and what is rendered from them, as they were. */
  method CopyThenDisturb(heap: Heap, e: Entry, formatted: CText, disturbOriginal: bool) returns (copy: Entry?)
    requires e.Valid() && e.Foot() <= heap.live && heap !in e.Foot()
    modifies heap, e.Foot()
    ensures copy != null && disturbOriginal ==>
      && ElementsCopied(copy.Data(), old(e.Data()), old(EntryTails(e.elements)))
      && (copy.Data() == old(e.Data()) <==> old(e.Named()))
    ensures copy != null && !disturbOriginal ==> e.View() == old(e.View())
  {
    ghost var bad;
    copy, bad := CopyEntry(heap, e, formatted);
    e.Same();
    if copy != null {
      if disturbOriginal {
        DisturbOne(e, copy);
      } else {
        DisturbOne(copy, e);
      }
    }
  }
}

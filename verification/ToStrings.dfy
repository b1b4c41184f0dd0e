/** The two-pass renderings for people: `stumpless_element_to_string` (src/element.c) and
    `stumpless_entry_to_string` (src/entry.c) size a buffer first and fill it after. */
module ToStrings {
  import opened Bytes
  import opened Memory
  import opened Allocation
  import opened Records
  import opened Params
  import opened Digits
  import opened Readers

  // ----- elements

  /** p1,...,pn */
  function Commas(ps: seq<ParamRec>): Str {
    if ps == [] then []
    else if |ps| == 1 then Printed(ps[0])
    else Printed(ps[0]) + [COMMA] + Commas(ps[1..])
  }

  /** name=[p1,...,pn], or the bare name. */
  function ElementText(e: ElementRec): Str {
    if e.params == [] then e.name else e.name + [EQUALS, LBRACKET] + Commas(e.params) + [RBRACKET]
  }

  /** Contents whose names have no `=` and whose values no quote; the checks of names see to the former. */
  predicate Plain(e: ElementRec) {
    61 !in e.name && PlainParams(e.params)
  }

  predicate PlainParams(ps: seq<ParamRec>) {
    forall i | 0 <= i < |ps| :: 61 !in ps[i].name && 34 !in ps[i].value
  }

  lemma Regroup5(a: Str, b: Str, c: Str, d: Str, e: Str)
    ensures a + b + c + d + e == a + (b + (c + d + e))
  {
  }

  lemma OneItem(p: ParamRec, rest: Str)
    requires 61 !in p.name && 34 !in p.value
    ensures TakeItem(Printed(p) + rest) == Some((p, rest))
  {
    TakeItemBack(p.name, p.value, rest);
  }

  lemma Cons<T>(s: seq<T>)
    requires s != []
    ensures [s[0]] + s[1..] == s
  {
  }

  lemma {:induction false} CommasRead(ps: seq<ParamRec>, rest: Str)
    requires ps != [] && PlainParams(ps)
    ensures TakeItems(Commas(ps) + [93] + rest) == Some((ps, rest))
    decreases |ps|
  {
    Cons(ps);
    if |ps| == 1 {
      Regroup(Printed(ps[0]), [93], rest);
      OneItem(ps[0], [93] + rest);
      assert ([93] + rest)[1..] == rest && ps == [ps[0]];
    } else {
      var more := Commas(ps[1..]) + [93] + rest;
      Regroup5(Printed(ps[0]), [44], Commas(ps[1..]), [93], rest);
      OneItem(ps[0], [44] + more);
      CommasRead(ps[1..], rest);
      assert ([44] + more)[1..] == more;
    }
  }

  lemma ElementReadsOn(e: ElementRec, rest: Str, stops: Str)
    requires Plain(e) && 61 in stops && Readers.Without(e.name, stops)
    requires rest == [] || (rest[0] in stops && rest[0] != 61)
    ensures TakeElement(ElementText(e) + rest, stops) == Some((e, rest))
  {
    if e.params == [] {
      UntilBack(e.name, rest, stops);
    } else {
      var items := Commas(e.params) + [93] + rest;
      var more := [61, 91] + items;
      assert ElementText(e) + rest == e.name + more && more[2..] == items;
      UntilBack(e.name, more, stops);
      CommasRead(e.params, rest);
    }
  }

  /** A reader that knows only the punctuation gets the element back, params in order. There is an `=` if and only if
      there are params; the first has `[` behind it, and `]` ends the text. */
  lemma ElementReads(e: ElementRec)
    requires Plain(e)
    ensures var text := ElementText(e);
            && ReadElement(text) == Some(e)
            && (61 in text <==> e.params != [])
            && (e.params != [] ==> e.name + [61, 91] <= text && text[|text| - 1] == 93)
  {
    var text := ElementText(e);
    assert text + [] == text;
    ElementReadsOn(e, [], [61]);
    if e.params != [] {
      assert text[|e.name|] == 61;
    }
  }

  /** What the filling loop has written after `i` params: a comma follows each but the last. */
  function Filled(ps: seq<ParamRec>, i: nat): Str
    requires i <= |ps|
  {
    if i == 0 then []
    else Filled(ps, i - 1) + Printed(ps[i - 1]) + (if i < |ps| then [COMMA] else [])
  }

  lemma {:induction false} FilledShift(ps: seq<ParamRec>, i: nat)
    requires 1 <= i <= |ps| && |ps| >= 2
    ensures Filled(ps, i) == Printed(ps[0]) + [COMMA] + Filled(ps[1..], i - 1)
    decreases i
  {
    if i == 1 {
      assert Filled(ps, 1) == Filled(ps, 0) + Printed(ps[0]) + [COMMA];
      assert Filled(ps[1..], 0) == [];
    } else {
      FilledShift(ps, i - 1);
      var front, sep := Printed(ps[0]) + [COMMA], if i < |ps| then [COMMA] else [];
      assert ps[i - 1] == ps[1..][i - 2];
      assert front + Filled(ps[1..], i - 2) + Printed(ps[i - 1]) + sep
          == front + (Filled(ps[1..], i - 2) + Printed(ps[i - 1]) + sep);
    }
  }

  lemma {:induction false} FilledIsCommas(ps: seq<ParamRec>)
    ensures Filled(ps, |ps|) == Commas(ps)
    decreases |ps|
  {
    if |ps| >= 2 {
      FilledShift(ps, |ps|);
      FilledIsCommas(ps[1..]);
    } else if |ps| == 1 {
      assert Filled(ps, 1) == Filled(ps, 0) + Printed(ps[0]) + [];
    }
  }

  /** The sizing loop: sizes without the terminators. */
  function SizeUpTo(ps: seq<ParamRec>, i: nat): nat
    requires i <= |ps|
  {
    if i == 0 then 0 else SizeUpTo(ps, i - 1) + StringSize(ps[i - 1]) - 1
  }

  lemma {:induction false} FilledLength(ps: seq<ParamRec>, i: nat)
    requires i <= |ps|
    ensures |Filled(ps, i)| == SizeUpTo(ps, i) + (if i < |ps| then i else if i == 0 then 0 else i - 1)
    decreases i
  {
    if i > 0 {
      FilledLength(ps, i - 1);
    }
  }

  lemma {:induction false} SizeMonotone(ps: seq<ParamRec>, i: nat, k: nat)
    requires i <= k <= |ps|
    ensures SizeUpTo(ps, i) <= SizeUpTo(ps, k)
    decreases k
  {
    if i < k {
      SizeMonotone(ps, i, k - 1);
    }
  }

  /** The first pass. */
  method ElementFormatLength(e: ElementRec) returns (formatLen: nat)
    ensures formatLen == |ElementText(e)| + 1
  {
    formatLen := |e.name|;
    for i := 0 to |e.params|
      invariant formatLen == |e.name| + SizeUpTo(e.params, i)
    {
      formatLen := formatLen + StringSize(e.params[i]) - 1;
    }
    FilledLength(e.params, |e.params|);
    FilledIsCommas(e.params);
    formatLen := formatLen + if |e.params| != 0 then 4 + |e.params| - 1 else 1;
  }

  /** One round of the filling loop: the param, and a comma unless it is the last. */
  method FillOne(ps: seq<ParamRec>, i: nat, format: array<byte>, at: nat) returns (written: nat)
    requires i < |ps| && at + StringSize(ps[i]) <= format.Length
    modifies format
    ensures written == at + |Printed(ps[i])| + (if i < |ps| - 1 then 1 else 0)
    ensures format[..written] == old(format[..at]) + (Printed(ps[i]) + if i < |ps| - 1 then [COMMA] else [])
  {
    var n := ParamIntoBuffer(ps[i], format, at);
    written := at + n - 1;
    assert format[..written] == format[..at + n][..written] == old(format[..at]) + Printed(ps[i]);
    if i < |ps| - 1 {
      MemCopy(format, written, [COMMA]);
      written := written + 1;
    }
  }

  /** The params loop of the second pass; the buffer it was given is just large enough. */
  method FillParams(ps: seq<ParamRec>, format: array<byte>, at: nat) returns (written: nat)
    requires ps != [] && at + |Commas(ps)| + 1 <= format.Length
    modifies format
    ensures written == at + |Commas(ps)| && format[..written] == old(format[..at]) + Commas(ps)
  {
    FilledIsCommas(ps);
    FilledLength(ps, |ps|);
    written := at;
    ghost var before := format[..at];
    assert before == before + Filled(ps, 0);
    for i := 0 to |ps|
      invariant written == at + |Filled(ps, i)| <= format.Length
      invariant format[..written] == before + Filled(ps, i)
    {
      FilledLength(ps, i);
      FilledLength(ps, i + 1);
      SizeMonotone(ps, i + 1, |ps|);
      written := FillOne(ps, i, format, written);
      FilledNext(ps, i, before);
    }
  }

  lemma FilledNext(ps: seq<ParamRec>, i: nat, before: Str)
    requires i < |ps|
    ensures before + Filled(ps, i + 1)
         == before + Filled(ps, i) + (Printed(ps[i]) + if i < |ps| - 1 then [COMMA] else [])
    ensures |Filled(ps, i + 1)| == |Filled(ps, i)| + |Printed(ps[i])| + if i < |ps| - 1 then 1 else 0
  {
    assert Filled(ps, i + 1) == Filled(ps, i) + Printed(ps[i]) + (if i + 1 < |ps| then [COMMA] else []);
  }

  /** The buffer is exactly as long as the text and its terminator, and is filled to the last byte. */
  method ElementToString(heap: Heap, e: ElementRec) returns (format: array?<byte>)
    modifies heap
    ensures format != null ==> fresh(format) && format[..] == ElementText(e) + [NUL]
    ensures format != null ==> format.Length > 0 && format[format.Length - 1] == NUL
    ensures format != null && Plain(e) ==> ReadElement(format[..format.Length - 1]) == Some(e)
    ensures heap.live == if format == null then old(heap.live) else old(heap.live) + {format}
    ensures heap.refusals == old(heap.refusals) + if format == null then 1 else 0
  {
    var formatLen := ElementFormatLength(e);
    format := heap.Malloc(formatLen);
    if format == null {
      return;
    }
    FillElement(e, format);
    assert format[..format.Length - 1] == format[..][..format.Length - 1] == ElementText(e);
    if Plain(e) {
      ElementReads(e);
    }
  }

  /** The bracketed list behind the name. */
  method FillBrackets(e: ElementRec, format: array<byte>) returns (written: nat)
    requires e.params != [] && format.Length == |ElementText(e)| + 1 && format[..|e.name|] == e.name
    modifies format
    ensures written == |ElementText(e)| && format[..written] == ElementText(e)
  {
    MemCopy(format, |e.name|, [EQUALS, LBRACKET]);
    written := FillParams(e.params, format, |e.name| + 2);
    MemCopy(format, written, [RBRACKET]);
    written := written + 1;
  }

  /** The second pass. */
  method FillElement(e: ElementRec, format: array<byte>)
    requires format.Length == |ElementText(e)| + 1
    modifies format
    ensures format[..] == ElementText(e) + [NUL]
  {
    MemCopy(format, 0, e.name);
    assert format[..|e.name|] == e.name;
    var written := |e.name|;
    if |e.params| != 0 {
      written := FillBrackets(e, format);
    }
    MemCopy(format, written, [NUL]);
    assert format[..] == format[..written + 1];
  }

  // ----- entries

  // the keys, in ASCII
  const PRIVAL: Str := [112, 114, 105, 118, 97, 108] // prival
  const APP_NAME: Str := [97, 112, 112, 95, 110, 97, 109, 101] // app_name
  const HOSTNAME: Str := [104, 111, 115, 116, 110, 97, 109, 101] // hostname
  const MESSAGE_ID: Str := [109, 101, 115, 115, 97, 103, 101, 95, 105, 100] // message_id
  const PROCESS_ID: Str := [112, 114, 111, 99, 101, 115, 115, 95, 105, 100] // process_id
  const MESSAGE: Str := [109, 101, 115, 115, 97, 103, 101] // message

  /** key="value", */
  function KeyValue(key: Str, value: Str): Str {
    key + [EQUALS, QUOTE] + value + [QUOTE, COMMA]
  }

  /** An `int` cast to a 64-bit `size_t`. */
  function AsSize(i: int): nat
    requires -0x8000_0000 <= i < 0x8000_0000
  {
    if i >= 0 then i else 0x1_0000_0000_0000_0000 + i
  }

  function FrontFields(r: EntryRec): Str
    requires -0x8000_0000 <= r.prival < 0x8000_0000
  {
    KeyValue(PRIVAL, IntBytes(AsSize(r.prival)))
    + KeyValue(APP_NAME, r.appName)
    + KeyValue(HOSTNAME, r.hostname)
  }

  function Fields(r: EntryRec): Str
    requires -0x8000_0000 <= r.prival < 0x8000_0000
  {
    FrontFields(r)
    + KeyValue(MESSAGE_ID, r.msgid)
    + KeyValue(PROCESS_ID, r.procid)
    + KeyValue(MESSAGE, r.message)
  }

  function Texts(es: seq<ElementRec>): seq<Str> {
    seq(|es|, i requires 0 <= i < |es| => ElementText(es[i]))
  }

  /** t1,...,ti */
  function Joined(texts: seq<Str>, i: nat): Str
    requires i <= |texts|
  {
    if i == 0 then [] else Joined(texts, i - 1) + (if i == 1 then [] else [COMMA]) + texts[i - 1]
  }

  function ElementTexts(es: seq<ElementRec>): Str {
    Joined(Texts(es), |es|)
  }

  function EntryText(r: EntryRec): Str
    requires -0x8000_0000 <= r.prival < 0x8000_0000
  {
    if r.elements == [] then Fields(r)[..|Fields(r)| - 1] else Fields(r) + ElementTexts(r.elements)
  }

  lemma {:induction false} JoinedCons(texts: seq<Str>, i: nat)
    requires 2 <= i <= |texts|
    ensures Joined(texts, i) == texts[0] + [COMMA] + Joined(texts[1..], i - 1)
    decreases i
  {
    if i == 2 {
      assert Joined(texts, 1) == texts[0] && Joined(texts[1..], 1) == texts[1];
    } else {
      JoinedCons(texts, i - 1);
      assert texts[i - 1] == texts[1..][i - 2];
      assert Joined(texts, i) == Joined(texts, i - 1) + [COMMA] + texts[i - 1];
      assert Joined(texts[1..], i - 1) == Joined(texts[1..], i - 2) + [COMMA] + texts[i - 1];
    }
  }

  /** Elements whose names have no comma either, so that a list of them can be told apart. */
  predicate PlainElements(es: seq<ElementRec>) {
    forall i | 0 <= i < |es| :: Plain(es[i]) && 44 !in es[i].name
  }

  lemma TextsCons(es: seq<ElementRec>)
    requires |es| >= 2
    ensures ElementTexts(es) == ElementText(es[0]) + ([COMMA] + ElementTexts(es[1..]))
  {
    JoinedCons(Texts(es), |es|);
    assert Texts(es)[1..] == Texts(es[1..]);
    Regroup(ElementText(es[0]), [COMMA], ElementTexts(es[1..]));
  }

  lemma OneText(e: ElementRec)
    ensures ElementTexts([e]) == ElementText(e) == ElementText(e) + []
  {
    var texts := Texts([e]);
    assert Joined(texts, 1) == Joined(texts, 0) + [] + texts[0];
  }

  lemma {:induction false} ElementsRead(es: seq<ElementRec>)
    requires es != [] && PlainElements(es)
    ensures ReadElements(ElementTexts(es)) == Some(es)
    decreases |es|
  {
    Cons(es);
    if |es| == 1 {
      assert es == [es[0]];
      OneText(es[0]);
      ElementReadsOn(es[0], [], [61, 44]);
    } else {
      TextsCons(es);
      var more := ElementTexts(es[1..]);
      assert ([44] + more)[1..] == more;
      ElementReadsOn(es[0], [44] + more, [61, 44]);
      ElementsRead(es[1..]);
    }
  }

  /** key="value",...,key="value" */
  function Pairs(keys: seq<Str>, values: seq<Str>): Str
    requires |keys| == |values|
  {
    if keys == [] then []
    else if |keys| == 1 then Printed(ParamRec(keys[0], values[0]))
    else Printed(ParamRec(keys[0], values[0])) + [COMMA] + Pairs(keys[1..], values[1..])
  }

  lemma {:induction false} PairsRead(names: seq<string>, keys: seq<Str>, values: seq<Str>, rest: Str)
    requires names != [] && |names| == |keys| == |values|
    requires forall i | 0 <= i < |names| :: keys[i] == Ascii(names[i]) && 61 !in keys[i] && 34 !in values[i]
    ensures TakeKeys(Pairs(keys, values) + rest, names) == Some((values, rest))
    decreases |names|
  {
    Cons(values);
    var p := ParamRec(keys[0], values[0]);
    if |names| == 1 {
      OneItem(p, rest);
      assert values == [values[0]];
    } else {
      var more := Pairs(keys[1..], values[1..]) + rest;
      Regroup4(Printed(p), [44], Pairs(keys[1..], values[1..]), rest);
      OneItem(p, [44] + more);
      assert ([44] + more)[1..] == more;
      PairsRead(names[1..], keys[1..], values[1..], rest);
    }
  }

  lemma Regroup4(a: Str, b: Str, c: Str, d: Str)
    ensures a + b + c + d == a + (b + (c + d))
  {
  }

  lemma KeysSpelled()
    ensures PRIVAL == Ascii("prival") && APP_NAME == Ascii("app_name") && HOSTNAME == Ascii("hostname")
    ensures MESSAGE_ID == Ascii("message_id") && PROCESS_ID == Ascii("process_id") && MESSAGE == Ascii("message")
  {
  }

  function Values(r: EntryRec): seq<Str>
    requires -0x8000_0000 <= r.prival < 0x8000_0000
  {
    [IntBytes(AsSize(r.prival)), r.appName, r.hostname, r.msgid, r.procid, r.message]
  }

  function Keys(): seq<Str> {
    [PRIVAL, APP_NAME, HOSTNAME, MESSAGE_ID, PROCESS_ID, MESSAGE]
  }

  lemma PairsFrom(keys: seq<Str>, values: seq<Str>, k: nat)
    requires |keys| == |values| && k < |keys|
    ensures Pairs(keys[k..], values[k..]) + [COMMA]
         == KeyValue(keys[k], values[k])
            + if k + 1 < |keys| then Pairs(keys[k + 1..], values[k + 1..]) + [COMMA] else []
  {
    assert keys[k..][1..] == keys[k + 1..] && values[k..][1..] == values[k + 1..];
  }

  /** Of the fields only the comma that ends them is not one of the pairs. */
  lemma FieldsArePairs(r: EntryRec)
    requires -0x8000_0000 <= r.prival < 0x8000_0000
    ensures Fields(r) == Pairs(Keys(), Values(r)) + [COMMA]
  {
    var keys, values := Keys(), Values(r);
    PairsFrom(keys, values, 5);
    PairsFrom(keys, values, 4);
    PairsFrom(keys, values, 3);
    PairsFrom(keys, values, 2);
    PairsFrom(keys, values, 1);
    PairsFrom(keys, values, 0);
    assert keys[0..] == keys && values[0..] == values;
    Regroup6(KeyValue(keys[0], values[0]), KeyValue(keys[1], values[1]), KeyValue(keys[2], values[2]),
             KeyValue(keys[3], values[3]), KeyValue(keys[4], values[4]), KeyValue(keys[5], values[5]));
  }

  lemma Regroup6(a: Str, b: Str, c: Str, d: Str, e: Str, f: Str)
    ensures a + b + c + d + e + f == a + (b + (c + (d + (e + (f + [])))))
  {
  }

  /** What follows the last quote of the fields. */
  function Behind(r: EntryRec): Str {
    if r.elements == [] then [] else [COMMA] + ElementTexts(r.elements)
  }

  lemma EntryParts(r: EntryRec)
    requires -0x8000_0000 <= r.prival < 0x8000_0000
    ensures EntryText(r) == Pairs(Keys(), Values(r)) + Behind(r)
  {
    var pairs := Pairs(Keys(), Values(r));
    FieldsArePairs(r);
    if r.elements == [] {
      assert (pairs + [COMMA])[..|pairs|] == pairs == pairs + [];
    } else {
      Regroup(pairs, [COMMA], ElementTexts(r.elements));
    }
  }

  predicate PlainEntry(r: EntryRec) {
    && 34 !in r.appName && 34 !in r.hostname && 34 !in r.msgid && 34 !in r.procid && 34 !in r.message
    && PlainElements(r.elements)
  }

  /** A reader that knows the keys and the punctuation finds in the text, behind `prival`, the digits of the prival as
      an unsigned 64-bit number, behind each other key its field, and the elements. */
  predicate ReadsAs(text: Str, r: EntryRec) {
    var reading := ReadEntry(text);
    reading.Some? && ValuesAre(reading.value.0, r) && reading.value.1 == r.elements
  }

  predicate ValuesAre(values: seq<Str>, r: EntryRec) {
    && |values| == 6
    && AllDigits(values[0]) && Value(values[0]) == r.prival + (if r.prival < 0 then 0x1_0000_0000_0000_0000 else 0)
    && values[1] == r.appName && values[2] == r.hostname && values[3] == r.msgid && values[4] == r.procid
    && values[5] == r.message
  }

  lemma PlainValues(r: EntryRec)
    requires -0x8000_0000 <= r.prival < 0x8000_0000 && PlainEntry(r)
    ensures ValuesAre(Values(r), r)
    ensures forall i | 0 <= i < 6 :: Keys()[i] == Ascii(KEYS[i]) && 61 !in Keys()[i] && 34 !in Values(r)[i]
  {
    DigitBytesDecimal(AsSize(r.prival));
    assert Value([ZERO]) == 0;
    KeysSpelled();
  }

  lemma ValuesRead(r: EntryRec, names: seq<string>)
    requires -0x8000_0000 <= r.prival < 0x8000_0000 && |names| == 6
    requires forall i | 0 <= i < 6 :: Keys()[i] == Ascii(names[i]) && 61 !in Keys()[i] && 34 !in Values(r)[i]
    ensures TakeKeys(EntryText(r), names) == Some((Values(r), Behind(r)))
  {
    EntryParts(r);
    PairsRead(names, Keys(), Values(r), Behind(r));
  }

  lemma EntryRead(r: EntryRec, text: Str)
    requires -0x8000_0000 <= r.prival < 0x8000_0000 && PlainElements(r.elements)
    requires TakeKeys(text, KEYS) == Some((Values(r), Behind(r)))
    ensures ReadEntry(text) == Some((Values(r), r.elements))
  {
    if r.elements != [] {
      assert Behind(r)[1..] == ElementTexts(r.elements);
      ElementsRead(r.elements);
    }
  }

  lemma EntryReads(r: EntryRec)
    requires -0x8000_0000 <= r.prival < 0x8000_0000 && PlainEntry(r)
    ensures ReadsAs(EntryText(r), r)
  {
    PlainValues(r);
    ValuesRead(r, KEYS);
    EntryRead(r, EntryText(r));
  }

  /** The sizes, with a comma each, of those of the first `i` texts that the sizing pass obtained. */
  function TextsSize(texts: seq<Str>, sized: seq<bool>, i: nat): nat
    requires i <= |texts| == |sized|
  {
    if i == 0 then 0 else TextsSize(texts, sized, i - 1) + if sized[i - 1] then |texts[i - 1]| + 1 else 0
  }

  /** The sizes, with a comma each, of those it could not obtain and skipped. */
  function Skipped(texts: seq<Str>, sized: seq<bool>, i: nat): nat
    requires i <= |texts| == |sized|
  {
    if i == 0 then 0 else Skipped(texts, sized, i - 1) + if sized[i - 1] then 0 else |texts[i - 1]| + 1
  }

  /** The first pass sets aside 27 bytes for the prival and too few for every other field's punctuation. */
  function Allocated(r: EntryRec, sized: seq<bool>): nat
    requires |sized| == |r.elements|
  {
    7 + 20 + 9 + |r.appName| + 10 + |r.hostname| + 12 + |r.msgid| + 12 + |r.procid| + 9 + |r.message|
    + TextsSize(Texts(r.elements), sized, |r.elements|) + 1
  }

  /** Whether every byte that a complete second pass writes lies in the allocation: the text and its terminator, and
      the comma after the last field, erased again when there are no elements. */
  predicate Fits(r: EntryRec, sized: seq<bool>)
    requires |sized| == |r.elements| && -0x8000_0000 <= r.prival < 0x8000_0000
  {
    |EntryText(r)| + 1 <= Allocated(r, sized) && |Fields(r)| <= Allocated(r, sized)
  }

  lemma {:induction false} JoinedLength(texts: seq<Str>, sized: seq<bool>, i: nat)
    requires i <= |texts| == |sized|
    ensures TextsSize(texts, sized, i) + Skipped(texts, sized, i) == |Joined(texts, i)| + (if i == 0 then 0 else 1)
    decreases i
  {
    if i > 0 {
      JoinedLength(texts, sized, i - 1);
    }
  }

  lemma FieldsLength(r: EntryRec)
    requires -0x8000_0000 <= r.prival < 0x8000_0000
    ensures |Fields(r)| == 73 + |IntBytes(AsSize(r.prival))|
      + |r.appName| + |r.hostname| + |r.msgid| + |r.procid| + |r.message|
  {
  }

  /** The exact condition, for all contents and all failures of the sizing pass: the digits of the prival and the texts
      it skipped, a comma with each, come to at most seven bytes. */
  lemma EntryFitsExactly(r: EntryRec, sized: seq<bool>)
    requires |sized| == |r.elements| && -0x8000_0000 <= r.prival < 0x8000_0000
    ensures Fits(r, sized) <==>
              |IntBytes(AsSize(r.prival))| + Skipped(Texts(r.elements), sized, |r.elements|) <= 7
    ensures |Fields(r)| <= |EntryText(r)| + 1
  {
    FieldsLength(r);
    JoinedLength(Texts(r.elements), sized, |r.elements|);
  }

  lemma {:induction false} NoneSkipped(texts: seq<Str>, sized: seq<bool>, i: nat)
    requires i <= |texts| == |sized| && forall k | 0 <= k < i :: sized[k]
    ensures Skipped(texts, sized, i) == 0
  {
    if i > 0 {
      NoneSkipped(texts, sized, i - 1);
    }
  }

  /** When the sizing pass obtains every text, the prival decides: up to seven digits. Any facility and severity give
      at most three. */
  lemma FitsWhenAllSized(r: EntryRec, sized: seq<bool>)
    requires |sized| == |r.elements| && -0x8000_0000 <= r.prival < 0x8000_0000
    requires forall k | 0 <= k < |sized| :: sized[k]
    ensures Fits(r, sized) <==> 0 <= r.prival < 10_000_000
  {
    EntryFitsExactly(r, sized);
    NoneSkipped(Texts(r.elements), sized, |r.elements|);
    PrivalDigits(r.prival);
  }

  lemma {:induction false} SkippedMost(texts: seq<Str>, sized: seq<bool>, none: seq<bool>, i: nat)
    requires i <= |texts| == |sized| == |none| && forall k | 0 <= k < |none| :: !none[k]
    ensures Skipped(texts, sized, i) <= Skipped(texts, none, i)
  {
    if i > 0 {
      SkippedMost(texts, sized, none, i - 1);
    }
  }

  /** What a caller can check beforehand: whatever the sizing pass cannot obtain, a complete filling pass stays in the
      allocation, if and only if it does when the sizing pass obtains nothing. */
  lemma FitsWhateverIsSized(r: EntryRec, none: seq<bool>)
    requires |none| == |r.elements| && -0x8000_0000 <= r.prival < 0x8000_0000
    requires forall k | 0 <= k < |none| :: !none[k]
    ensures (forall sized | |sized| == |r.elements| :: Fits(r, sized)) <==>
              |IntBytes(AsSize(r.prival))| + Skipped(Texts(r.elements), none, |r.elements|) <= 7
  {
    EntryFitsExactly(r, none);
    forall sized: seq<bool> | |sized| == |r.elements| && Fits(r, none)
      ensures Fits(r, sized)
    {
      EntryFitsExactly(r, sized);
      SkippedMost(Texts(r.elements), sized, none, |r.elements|);
    }
  }

  lemma {:induction false} SkippedAtLeast(texts: seq<Str>, sized: seq<bool>, i: nat, k: nat)
    requires k < i <= |texts| == |sized| && !sized[k]
    ensures Skipped(texts, sized, i) >= |texts[k]| + 1
  {
    if k < i - 1 {
      SkippedAtLeast(texts, sized, i - 1, k);
    }
  }

  /** So one failed allocation is enough: if the sizing pass skips an element whose text has six bytes or more and the
      filling pass obtains it, the writes run past the allocation, whatever the prival. */
  lemma SkippedElementOverruns(r: EntryRec, sized: seq<bool>, k: nat)
    requires |sized| == |r.elements| && -0x8000_0000 <= r.prival < 0x8000_0000
    requires k < |sized| && !sized[k] && |ElementText(r.elements[k])| >= 6
    ensures !Fits(r, sized)
  {
    EntryFitsExactly(r, sized);
    SkippedAtLeast(Texts(r.elements), sized, |sized|, k);
  }

  /** The input in full: prival 14, all fields a dash, and one element named `origin` without params. */
  lemma OverrunInput()
    ensures var r := EntryRec(14, [DASH], [DASH], [DASH], [DASH],
                              [ElementRec([111, 114, 105, 103, 105, 110], [])], [DASH]);
            Fits(r, [true]) && !Fits(r, [false])
  {
    var r := EntryRec(14, [DASH], [DASH], [DASH], [DASH], [ElementRec([111, 114, 105, 103, 105, 110], [])], [DASH]);
    FitsWhenAllSized(r, [true]);
    SkippedElementOverruns(r, [false], 0);
  }

  lemma PrivalDigits(prival: int)
    requires -0x8000_0000 <= prival < 0x8000_0000
    ensures |IntBytes(AsSize(prival))| <= 7 <==> 0 <= prival < 10_000_000
  {
    assert Pow10(7) == 10_000_000;
    DigitCount(AsSize(prival), 7);
  }

  method AppendKeyValuePair(dest: array<byte>, offset: nat, key: Str, value: Str) returns (next: nat)
    requires offset + |key| + |value| + 4 <= dest.Length
    modifies dest
    ensures next == offset + |key| + |value| + 4
    ensures dest[..next] == old(dest[..offset]) + KeyValue(key, value)
  {
    next := offset;
    MemCopy(dest, next, key);
    next := next + |key|;
    MemCopy(dest, next, [EQUALS, QUOTE]);
    next := next + 2;
    MemCopy(dest, next, value);
    next := next + |value|;
    MemCopy(dest, next, [QUOTE, COMMA]);
    next := next + 2;
  }

  method FillFrontFields(r: EntryRec, dest: array<byte>) returns (offset: nat)
    requires -0x8000_0000 <= r.prival < 0x8000_0000 && |FrontFields(r)| <= dest.Length
    modifies dest
    ensures offset == |FrontFields(r)| && dest[..offset] == FrontFields(r)
  {
    offset := AppendKeyValuePair(dest, 0, PRIVAL, IntBytes(AsSize(r.prival)));
    offset := AppendKeyValuePair(dest, offset, APP_NAME, r.appName);
    offset := AppendKeyValuePair(dest, offset, HOSTNAME, r.hostname);
  }

  method FillFields(r: EntryRec, dest: array<byte>) returns (offset: nat)
    requires -0x8000_0000 <= r.prival < 0x8000_0000 && |Fields(r)| <= dest.Length
    modifies dest
    ensures offset == |Fields(r)| && dest[..offset] == Fields(r)
  {
    offset := FillFrontFields(r, dest);
    offset := AppendKeyValuePair(dest, offset, MESSAGE_ID, r.msgid);
    offset := AppendKeyValuePair(dest, offset, PROCESS_ID, r.procid);
    offset := AppendKeyValuePair(dest, offset, MESSAGE, r.message);
  }

  method FillOneText(text: Str, isFirst: bool, dest: array<byte>, at: nat) returns (offset: nat)
    requires at + (if isFirst then 0 else 1) + |text| <= dest.Length
    modifies dest
    ensures offset == at + (if isFirst then 0 else 1) + |text|
    ensures dest[..offset] == old(dest[..at]) + (if isFirst then [] else [COMMA]) + text
  {
    offset := at;
    if !isFirst {
      MemCopy(dest, offset, [COMMA]);
      offset := offset + 1;
    }
    MemCopy(dest, offset, text);
    offset := offset + |text|;
  }

  lemma {:induction false} JoinedMonotone(texts: seq<Str>, i: nat, k: nat)
    requires i <= k <= |texts|
    ensures |Joined(texts, i)| <= |Joined(texts, k)|
    decreases k
  {
    if i < k {
      JoinedMonotone(texts, i, k - 1);
    }
  }

  /** How the rendering ends. `Overrun` and `NullText` are where the source goes wrong: a write past the allocation,
      and a second text that could not be obtained, which the source dereferences. */
  datatype Rendering = NoMemory | Text(format: array<byte>) | Overrun | NullText

  /** The first pass: which texts it obtained is for the allocator to say. */
  method SizeTexts(texts: seq<Str>, sized: seq<bool>) returns (total: nat)
    requires |texts| == |sized|
    ensures total == TextsSize(texts, sized, |texts|)
  {
    total := 0;
    for i := 0 to |texts|
      invariant total == TextsSize(texts, sized, i)
    {
      if sized[i] {
        total := total + |texts[i]| + 1;
      }
    }
  }

  datatype Filling = Whole(end: nat) | PastEnd | NoText

  /** The elements loop of the second pass, up to the first write past the buffer or the first text it cannot obtain. */
  method FillTexts(texts: seq<Str>, obtained: seq<bool>, dest: array<byte>, at: nat) returns (f: Filling)
    requires |texts| == |obtained| && at <= dest.Length
    modifies dest
    ensures f.Whole? ==>
      && f.end == at + |Joined(texts, |texts|)| <= dest.Length
      && dest[..f.end] == old(dest[..at]) + Joined(texts, |texts|)
    ensures f.PastEnd? ==> at + |Joined(texts, |texts|)| > dest.Length
    ensures (exists k | 0 <= k < |texts| :: !obtained[k]) ==> !f.Whole?
    ensures f.NoText? ==> exists k | 0 <= k < |texts| :: !obtained[k]
  {
    var offset := at;
    var isFirst := true;
    ghost var before := dest[..at];
    assert before + Joined(texts, 0) == before;
    for i := 0 to |texts|
      invariant isFirst <==> i == 0
      invariant offset == at + |Joined(texts, i)| <= dest.Length
      invariant dest[..offset] == before + Joined(texts, i)
      invariant forall k | 0 <= k < i :: obtained[k]
    {
      if !obtained[i] {
        return NoText;
      }
      JoinedMonotone(texts, i + 1, |texts|);
      if offset + (if isFirst then 0 else 1) + |texts[i]| > dest.Length {
        return PastEnd;
      }
      offset := FillOneText(texts[i], isFirst, dest, offset);
      isFirst := false;
      assert Joined(texts, i + 1) == Joined(texts, i) + (if i == 0 then [] else [COMMA]) + texts[i];
    }
    f := Whole(offset);
  }

  method EntrySize(r: EntryRec, texts: seq<Str>, sized: seq<bool>) returns (size: nat)
    requires texts == Texts(r.elements) && |sized| == |texts|
    ensures size == Allocated(r, sized)
  {
    size := 7 + 20;
    size := size + 9 + |r.appName|;
    size := size + 10 + |r.hostname|;
    size := size + 12 + |r.msgid|;
    size := size + 12 + |r.procid|;
    size := size + 9 + |r.message|;
    var total := SizeTexts(texts, sized);
    size := size + total + 1;
  }

  /** `stumpless_entry_to_string`, with the outcome of every element's rendering in either pass. If the second pass
      obtains them all, the text is written whole, terminator included, if and only if it fits what the first pass
      set aside, and otherwise the source writes past its allocation. */
  method EntryToString(heap: Heap, r: EntryRec, sized: seq<bool>, obtained: seq<bool>)
    returns (s: Rendering, ghost end: nat)
    requires |sized| == |obtained| == |r.elements| && -0x8000_0000 <= r.prival < 0x8000_0000
    modifies heap
    ensures s.NoMemory? <==> heap.refusals > old(heap.refusals)
    ensures s.NoMemory? ==> heap.live == old(heap.live)
    ensures (forall k | 0 <= k < |obtained| :: obtained[k]) && !s.NoMemory? ==>
              (s.Text? <==> Fits(r, sized)) && (s.Overrun? <==> !Fits(r, sized))
    ensures s.Text? ==>
      && (forall k | 0 <= k < |obtained| :: obtained[k])
      && fresh(s.format) && heap.live == old(heap.live) + {s.format}
      && |EntryText(r)| < s.format.Length == Allocated(r, sized)
      && s.format[..|EntryText(r)| + 1] == EntryText(r) + [NUL]
    ensures s.Text? ==>
      end < s.format.Length && s.format[end] == NUL && (PlainEntry(r) ==> ReadsAs(s.format[..end], r))
    ensures s.Overrun? ==> !Fits(r, sized)
    ensures s.NullText? ==> exists k | 0 <= k < |obtained| :: !obtained[k]
  {
    var texts := Texts(r.elements);
    var size := EntrySize(r, texts, sized);
    var format := heap.Malloc(size);
    end := |EntryText(r)|;
    if format == null {
      s := Rendering.NoMemory;
      return;
    }
    var f := FillEntry(r, texts, obtained, format, sized);
    s := match f
         case NoText => NullText
         case PastEnd => Overrun
         case Whole(_) => Text(format);
    if f.Whole? {
      TextEnds(EntryText(r), format[..]);
      MaybeReads(r);
    }
  }

  lemma MaybeReads(r: EntryRec)
    requires -0x8000_0000 <= r.prival < 0x8000_0000
    ensures PlainEntry(r) ==> ReadsAs(EntryText(r), r)
  {
    if PlainEntry(r) {
      EntryReads(r);
    }
  }

  lemma TextEnds(text: Str, mem: Str)
    requires |text| < |mem| && mem[..|text| + 1] == text + [NUL]
    ensures mem[|text|] == NUL && mem[..|text|] == text
  {
    var n := |text|;
    assert mem[n] == mem[..n + 1][n] && mem[..n] == mem[..n + 1][..n];
  }

  /** The second pass: where it ends, unless it writes past the buffer or lacks a text. */
  method FillEntry(r: EntryRec, texts: seq<Str>, obtained: seq<bool>, dest: array<byte>, ghost sized: seq<bool>)
    returns (f: Filling)
    requires -0x8000_0000 <= r.prival < 0x8000_0000 && texts == Texts(r.elements) && |obtained| == |texts|
    requires |sized| == |texts| && dest.Length == Allocated(r, sized)
    modifies dest
    ensures f.Whole? ==>
      && f.end == |EntryText(r)| < dest.Length && Fits(r, sized)
      && dest[..f.end + 1] == EntryText(r) + [NUL] && forall k | 0 <= k < |obtained| :: obtained[k]
    ensures f.PastEnd? ==> !Fits(r, sized)
    ensures f.NoText? ==> exists k | 0 <= k < |obtained| :: !obtained[k]
  {
    if |Fields(r)| > dest.Length {
      return PastEnd;
    }
    var offset := FillFields(r, dest);
    if r.elements == [] {
      offset := offset - 1;
    } else {
      f := FillTexts(texts, obtained, dest, offset);
      if !f.Whole? { return; }
      offset := f.end;
    }
    if offset == dest.Length {
      return PastEnd;
    }
    assert dest[..offset] == EntryText(r);
    dest[offset] := NUL;
    f := Whole(offset);
  }
}

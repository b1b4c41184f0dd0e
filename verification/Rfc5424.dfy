/** The line that src/formatter.c renders, and a parser for it: the grammar of section 6 of RFC 5424, with
    empty fields and names let through. */
module Rfc5424 {
  import opened Bytes
  import opened Records
  import opened Validate
  import opened Digits

  /** What one line says. */
  datatype LineRec = LineRec(
    prival: int,
    timestamp: Str,
    hostname: Str,
    appName: Str,
    procid: Str,
    msgid: Str,
    elements: seq<ElementRec>,
    message: Str)

  // ----- printing

  /** A space, name="value" */
  function PrintParam(p: ParamRec): Str {
    [SPACE] + p.name + [EQUALS, QUOTE] + p.value + [QUOTE]
  }

  function PrintParams(ps: seq<ParamRec>): Str {
    if ps == [] then [] else PrintParam(ps[0]) + PrintParams(ps[1..])
  }

  /** [name p1 ... pn] */
  function PrintElement(e: ElementRec): Str {
    [LBRACKET] + e.name + PrintParams(e.params) + [RBRACKET]
  }

  function PrintElements(es: seq<ElementRec>): Str {
    if es == [] then [] else PrintElement(es[0]) + PrintElements(es[1..])
  }

  function PrintData(es: seq<ElementRec>): Str {
    if es == [] then [DASH] else PrintElements(es)
  }

  const VERSION: byte := 49

  function PrintHeader(r: LineRec): Str {
    [LESS] + IntBytes(r.prival) + [GREATER, VERSION, SPACE] + r.timestamp + [SPACE] + r.hostname + [SPACE]
    + r.appName + [SPACE] + r.procid + [SPACE] + r.msgid + [SPACE]
  }

  function PrintMessage(message: Str): Str {
    if message == [] then [] else [SPACE] + message
  }

  function Line(r: LineRec): Str {
    PrintHeader(r) + PrintData(r.elements) + PrintMessage(r.message) + [NEWLINE]
  }

  // ----- what a line can carry

  predicate NoSpace(s: Str) {
    forall i | 0 <= i < |s| :: s[i] != SPACE
  }

  /** Escaped as section 6.3.3 asks: no bare quote or bracket, and a backslash always has its companion. */
  predicate Escaped(v: Str) {
    v == []
    || (v[0] == BACKSLASH && |v| >= 2 && Escaped(v[2..]))
    || (v[0] != BACKSLASH && v[0] != QUOTE && v[0] != RBRACKET && Escaped(v[1..]))
  }

  predicate GoodParams(ps: seq<ParamRec>) {
    forall i | 0 <= i < |ps| :: NameChars(ps[i].name) && Escaped(ps[i].value)
  }

  predicate GoodElements(es: seq<ElementRec>) {
    forall i | 0 <= i < |es| :: NameChars(es[i].name) && GoodParams(es[i].params)
  }

  predicate GoodLine(r: LineRec) {
    && 0 <= r.prival <= 191 && NoSpace(r.timestamp) && NoSpace(r.hostname) && NoSpace(r.appName)
    && NoSpace(r.procid) && NoSpace(r.msgid) && GoodElements(r.elements)
  }

  // ----- parsing

  /** The longest run of name characters, and the rest. */
  function NameSpan(s: Str): (r: (Str, Str))
    ensures s == r.0 + r.1 && NameChars(r.0)
  {
    if s == [] || !IsNameChar(s[0]) then ([], s)
    else var (n, rest) := NameSpan(s[1..]); ([s[0]] + n, rest)
  }

  function DigitSpan(s: Str): (r: (Str, Str))
    ensures s == r.0 + r.1 && AllDigits(r.0)
  {
    if s == [] || !IsDigit(s[0]) then ([], s)
    else var (n, rest) := DigitSpan(s[1..]); ([s[0]] + n, rest)
  }

  /** A field and the space that ends it. */
  function TakeField(s: Str): (r: Option<(Str, Str)>)
    ensures r.Some? ==> NoSpace(r.value.0) && s == r.value.0 + [SPACE] + r.value.1
  {
    if s == [] then None
    else if s[0] == SPACE then Some(([], s[1..]))
    else match TakeField(s[1..])
      case None => None
      case Some((f, rest)) => Some(([s[0]] + f, rest))
  }

  /** A value and the quote that ends it. */
  function TakeValue(s: Str): (r: Option<(Str, Str)>)
    ensures r.Some? ==> Escaped(r.value.0) && s == r.value.0 + [QUOTE] + r.value.1
  {
    if s == [] || s[0] == RBRACKET then None
    else if s[0] == QUOTE then Some(([], s[1..]))
    else if s[0] == BACKSLASH && |s| < 2 then None
    else
      var k := if s[0] == BACKSLASH then 2 else 1;
      match TakeValue(s[k..])
      case None => None
      case Some((v, rest)) =>
        assert (s[..k] + v)[k..] == v;
        assert s == s[..k] + s[k..];
        Some((s[..k] + v, rest))
  }

  lemma ParamJoins(s: Str, name: Str, more: Str, v: Str, rest: Str)
    requires |s| > 0 && s[0] == SPACE && s[1..] == name + more
    requires |more| >= 2 && more[..2] == [EQUALS, QUOTE] && more[2..] == v + [QUOTE] + rest
    ensures s == PrintParam(ParamRec(name, v)) + rest
  {
    assert more == [EQUALS, QUOTE] + (v + [QUOTE] + rest);
    assert s == [SPACE] + (name + more);
  }

  lemma ElementJoins(s: Str, name: Str, more: Str, ps: seq<ParamRec>, rest: Str)
    requires s != [] && s[0] == LBRACKET && s[1..] == name + more
    requires more == PrintParams(ps) + [RBRACKET] + rest
    ensures s == PrintElement(ElementRec(name, ps)) + rest
  {
    assert s == [LBRACKET] + name + (PrintParams(ps) + [RBRACKET] + rest);
  }

  lemma ElementsJoin(s: Str, e: ElementRec, more: Str, es: seq<ElementRec>, rest: Str)
    requires s == PrintElement(e) + more && more == PrintElements(es) + rest
    ensures s == PrintElements([e] + es) + rest
  {
    assert ([e] + es)[1..] == es;
    assert s == PrintElement(e) + (PrintElements(es) + rest);
  }

  lemma ParamsJoin(s: Str, p: ParamRec, more: Str, ps: seq<ParamRec>, rest: Str)
    requires s == PrintParam(p) + more && more == PrintParams(ps) + [RBRACKET] + rest
    ensures s == PrintParams([p] + ps) + [RBRACKET] + rest
  {
    assert ([p] + ps)[1..] == ps;
    assert s == PrintParam(p) + (PrintParams(ps) + [RBRACKET] + rest);
  }

  function TakeParam(s: Str): (r: Option<(ParamRec, Str)>)
    ensures r.Some? ==>
              && NameChars(r.value.0.name) && Escaped(r.value.0.value)
              && s == PrintParam(r.value.0) + r.value.1
  {
    if s == [] || s[0] != SPACE then None
    else
      var (name, more) := NameSpan(s[1..]);
      if |more| < 2 || more[0] != EQUALS || more[1] != QUOTE then None
      else match TakeValue(more[2..])
        case None => None
        case Some((v, rest)) =>
          ParamJoins(s, name, more, v, rest);
          Some((ParamRec(name, v), rest))
  }

  /** Params up to the bracket that ends the element. */
  function TakeParams(s: Str): (r: Option<(seq<ParamRec>, Str)>)
    ensures r.Some? ==> GoodParams(r.value.0) && s == PrintParams(r.value.0) + [RBRACKET] + r.value.1
    decreases |s|
  {
    if s != [] && s[0] == RBRACKET then Some(([], s[1..]))
    else match TakeParam(s)
      case None => None
      case Some((p, more)) =>
        match TakeParams(more)
        case None => None
        case Some((ps, rest)) =>
          ParamsJoin(s, p, more, ps, rest);
          Some(([p] + ps, rest))
  }

  function TakeElement(s: Str): (r: Option<(ElementRec, Str)>)
    ensures r.Some? ==>
              && NameChars(r.value.0.name) && GoodParams(r.value.0.params)
              && s == PrintElement(r.value.0) + r.value.1
  {
    if s == [] || s[0] != LBRACKET then None
    else
      var (name, more) := NameSpan(s[1..]);
      match TakeParams(more)
      case None => None
      case Some((ps, rest)) =>
        ElementJoins(s, name, more, ps, rest);
        Some((ElementRec(name, ps), rest))
  }

  /** Elements for as long as there is an opening bracket. */
  function TakeElements(s: Str): (r: Option<(seq<ElementRec>, Str)>)
    ensures r.Some? ==> GoodElements(r.value.0) && s == PrintElements(r.value.0) + r.value.1
    decreases |s|
  {
    if s == [] || s[0] != LBRACKET then Some(([], s))
    else match TakeElement(s)
      case None => None
      case Some((e, more)) =>
        match TakeElements(more)
        case None => None
        case Some((es, rest)) =>
          ElementsJoin(s, e, more, es, rest);
          Some(([e] + es, rest))
  }

  function TakeData(s: Str): (r: Option<(seq<ElementRec>, Str)>)
    ensures r.Some? ==> GoodElements(r.value.0) && s == PrintData(r.value.0) + r.value.1
  {
    if s == [] then None
    else if s[0] == DASH then Some(([], s[1..]))
    else match TakeElements(s)
      case None => None
      case Some((es, rest)) => if es == [] then None else Some((es, rest))
  }

  /** The rest of the line: a newline, or a space, a message and the newline that ends the line. */
  function TakeMessage(s: Str): (r: Option<Str>)
    ensures r.Some? ==> s == PrintMessage(r.value) + [NEWLINE]
  {
    if s == [NEWLINE] then Some([])
    else if |s| > 2 && s[0] == SPACE && s[|s| - 1] == NEWLINE then Some(s[1..|s| - 1])
    else None
  }

  function PrintFields(fs: seq<Str>): Str {
    if fs == [] then [] else fs[0] + [SPACE] + PrintFields(fs[1..])
  }

  function TakeFields(s: Str, k: nat): (r: Option<(seq<Str>, Str)>)
    ensures r.Some? ==>
              && |r.value.0| == k && (forall i | 0 <= i < k :: NoSpace(r.value.0[i]))
              && s == PrintFields(r.value.0) + r.value.1
    decreases k
  {
    if k == 0 then Some(([], s))
    else match TakeField(s)
      case None => None
      case Some((f, more)) =>
        match TakeFields(more, k - 1)
        case None => None
        case Some((fs, rest)) =>
          FieldsJoin(s, f, more, fs, rest);
          Some(([f] + fs, rest))
  }

  lemma FieldsJoin(s: Str, f: Str, more: Str, fs: seq<Str>, rest: Str)
    requires s == f + [SPACE] + more && more == PrintFields(fs) + rest
    ensures s == PrintFields([f] + fs) + rest
  {
    assert ([f] + fs)[1..] == fs;
    assert s == f + [SPACE] + (PrintFields(fs) + rest);
  }

  lemma PriJoins(s: Str, d: Str, more: Str)
    requires s != [] && s[0] == LESS && s[1..] == d + more
    requires |more| >= 3 && more[..3] == [GREATER, VERSION, SPACE]
    ensures s == [LESS] + d + [GREATER, VERSION, SPACE] + more[3..]
  {
    assert s == [LESS] + (d + (more[..3] + more[3..]));
  }

  /** PRI and VERSION: a prival of at most 191 with no leading zero. */
  function TakePri(s: Str): (r: Option<(nat, Str)>)
    ensures r.Some? ==>
              && r.value.0 <= 191
              && s == [LESS] + IntBytes(r.value.0) + [GREATER, VERSION, SPACE] + r.value.1
  {
    if s == [] || s[0] != LESS then None
    else
      var (d, more) := DigitSpan(s[1..]);
      if |more| < 3 || more[0] != GREATER || more[1] != VERSION || more[2] != SPACE then None
      else if Value(d) > 191 || IntBytes(Value(d)) != d then None
      else
        PriJoins(s, d, more);
        Some((Value(d), more[3..]))
  }

  function FieldsOf(r: LineRec): seq<Str> {
    [r.timestamp, r.hostname, r.appName, r.procid, r.msgid]
  }

  function Parse(s: Str): Option<LineRec> {
    match TakePri(s)
    case None => None
    case Some((prival, afterPri)) =>
      match TakeFields(afterPri, 5)
      case None => None
      case Some((fs, afterHeader)) =>
        match TakeData(afterHeader)
        case None => None
        case Some((es, afterData)) =>
          match TakeMessage(afterData)
          case None => None
          case Some(m) => Some(LineRec(prival, fs[0], fs[1], fs[2], fs[3], fs[4], es, m))
  }

  // ----- printed parts parse back

  lemma {:induction false} TakeFieldsBack(fs: seq<Str>, rest: Str)
    requires forall i | 0 <= i < |fs| :: NoSpace(fs[i])
    ensures TakeFields(PrintFields(fs) + rest, |fs|) == Some((fs, rest))
    decreases |fs|
  {
    var s := PrintFields(fs) + rest;
    if fs == [] {
      assert s == rest;
    } else {
      var more := PrintFields(fs[1..]) + rest;
      assert s == fs[0] + [SPACE] + more && [fs[0]] + fs[1..] == fs;
      TakeFieldBack(fs[0], more);
      TakeFieldsBack(fs[1..], rest);
    }
  }

  lemma TakePriBack(prival: nat, rest: Str)
    requires prival <= 191
    ensures TakePri([LESS] + IntBytes(prival) + [GREATER, VERSION, SPACE] + rest) == Some((prival, rest))
  {
    var d := IntBytes(prival);
    var more := [GREATER, VERSION, SPACE] + rest;
    var s := [LESS] + d + [GREATER, VERSION, SPACE] + rest;
    DigitBytesDecimal(prival);
    assert Value([ZERO]) == 0;
    assert s[1..] == d + more && more[3..] == rest;
    DigitSpanBack(d, more);
  }

  lemma TakeMessageBack(m: Str)
    ensures TakeMessage(PrintMessage(m) + [NEWLINE]) == Some(m)
  {
    var s := PrintMessage(m) + [NEWLINE];
    if m != [] {
      assert s[1..|s| - 1] == m;
    }
  }

  lemma {:induction false} NameSpanBack(n: Str, rest: Str)
    requires NameChars(n) && (rest == [] || !IsNameChar(rest[0]))
    ensures NameSpan(n + rest) == (n, rest)
  {
    if n == [] {
      assert n + rest == rest;
    } else {
      assert (n + rest)[1..] == n[1..] + rest && [n[0]] + n[1..] == n;
      NameSpanBack(n[1..], rest);
    }
  }

  lemma {:induction false} DigitSpanBack(n: Str, rest: Str)
    requires AllDigits(n) && (rest == [] || !IsDigit(rest[0]))
    ensures DigitSpan(n + rest) == (n, rest)
  {
    if n == [] {
      assert n + rest == rest;
    } else {
      assert (n + rest)[1..] == n[1..] + rest && [n[0]] + n[1..] == n;
      DigitSpanBack(n[1..], rest);
    }
  }

  lemma {:induction false} TakeFieldBack(f: Str, rest: Str)
    requires NoSpace(f)
    ensures TakeField(f + [SPACE] + rest) == Some((f, rest))
  {
    var s := f + [SPACE] + rest;
    if f == [] {
      assert s[1..] == rest;
    } else {
      assert s[1..] == f[1..] + [SPACE] + rest && [f[0]] + f[1..] == f;
      TakeFieldBack(f[1..], rest);
    }
  }

  lemma {:induction false} TakeValueBack(v: Str, rest: Str)
    requires Escaped(v)
    ensures TakeValue(v + [QUOTE] + rest) == Some((v, rest))
  {
    var s := v + [QUOTE] + rest;
    if v == [] {
      assert s[1..] == rest;
    } else {
      var k := if v[0] == BACKSLASH then 2 else 1;
      assert s[k..] == v[k..] + [QUOTE] + rest && s[..k] == v[..k] && v == v[..k] + v[k..];
      TakeValueBack(v[k..], rest);
    }
  }

  lemma TakeParamBack(p: ParamRec, rest: Str)
    requires NameChars(p.name) && Escaped(p.value)
    ensures TakeParam(PrintParam(p) + rest) == Some((p, rest))
  {
    var s := PrintParam(p) + rest;
    var more := [EQUALS, QUOTE] + (p.value + [QUOTE] + rest);
    assert s == [SPACE] + (p.name + more) && s[1..] == p.name + more;
    NameSpanBack(p.name, more);
    assert more[2..] == p.value + [QUOTE] + rest;
    TakeValueBack(p.value, rest);
  }

  lemma {:induction false} TakeParamsBack(ps: seq<ParamRec>, rest: Str)
    requires GoodParams(ps)
    ensures TakeParams(PrintParams(ps) + [RBRACKET] + rest) == Some((ps, rest))
    decreases |ps|
  {
    var s := PrintParams(ps) + [RBRACKET] + rest;
    if ps == [] {
      assert s[0] == RBRACKET && s[1..] == rest;
    } else {
      var more := PrintParams(ps[1..]) + [RBRACKET] + rest;
      assert s == PrintParam(ps[0]) + more && [ps[0]] + ps[1..] == ps;
      TakeParamBack(ps[0], more);
      TakeParamsBack(ps[1..], rest);
    }
  }

  lemma TakeElementBack(e: ElementRec, rest: Str)
    requires NameChars(e.name) && GoodParams(e.params)
    ensures TakeElement(PrintElement(e) + rest) == Some((e, rest))
  {
    var s := PrintElement(e) + rest;
    var more := PrintParams(e.params) + [RBRACKET] + rest;
    assert s == [LBRACKET] + (e.name + more) && s[1..] == e.name + more;
    NameSpanBack(e.name, more);
    TakeParamsBack(e.params, rest);
  }

  lemma {:induction false} TakeElementsBack(es: seq<ElementRec>, rest: Str)
    requires GoodElements(es) && (rest == [] || rest[0] != LBRACKET)
    ensures TakeElements(PrintElements(es) + rest) == Some((es, rest))
    decreases |es|
  {
    var s := PrintElements(es) + rest;
    if es == [] {
      assert s == rest;
    } else {
      var more := PrintElements(es[1..]) + rest;
      assert s == PrintElement(es[0]) + more && [es[0]] + es[1..] == es;
      TakeElementBack(es[0], more);
      TakeElementsBack(es[1..], rest);
    }
  }

  lemma TakeDataBack(es: seq<ElementRec>, rest: Str)
    requires GoodElements(es) && rest != [] && rest[0] != LBRACKET
    ensures TakeData(PrintData(es) + rest) == Some((es, rest))
  {
    if es == [] {
      assert ([DASH] + rest)[1..] == rest;
    } else {
      TakeElementsBack(es, rest);
    }
  }

  // ----- whole lines

  lemma HeaderFields(r: LineRec)
    ensures PrintHeader(r)
         == [LESS] + IntBytes(r.prival) + [GREATER, VERSION, SPACE] + PrintFields(FieldsOf(r))
  {
    var fs := FieldsOf(r);
    var fs1, fs2, fs3, fs4 := fs[1..], fs[2..], fs[3..], fs[4..];
    assert fs1[1..] == fs2 && fs2[1..] == fs3 && fs3[1..] == fs4 && fs4[1..] == [];
    var p4 := r.msgid + [SPACE];
    var p3 := r.procid + [SPACE] + p4;
    var p2 := r.appName + [SPACE] + p3;
    var p1 := r.hostname + [SPACE] + p2;
    assert PrintFields(fs4) == p4;
    assert PrintFields(fs3) == p3;
    assert PrintFields(fs2) == p2;
    assert PrintFields(fs1) == p1;
    assert PrintFields(fs) == r.timestamp + [SPACE] + p1;
  }

  /** Parsing a printed line recovers the prival, every header field, all elements and params in order, and
      the message. */
  lemma ParsePrinted(r: LineRec)
    requires GoodLine(r)
    ensures Parse(Line(r)) == Some(r)
  {
    var tail := PrintMessage(r.message) + [NEWLINE];
    var afterHeader := PrintData(r.elements) + tail;
    var fs := FieldsOf(r);
    HeaderFields(r);
    assert Line(r) == [LESS] + IntBytes(r.prival) + [GREATER, VERSION, SPACE] + (PrintFields(fs) + afterHeader);
    TakePriBack(r.prival, PrintFields(fs) + afterHeader);
    TakeFieldsBack(fs, afterHeader);
    TakeDataBack(r.elements, tail);
    TakeMessageBack(r.message);
  }

  lemma LineJoins(s: Str, r: LineRec, afterPri: Str, afterHeader: Str, afterData: Str)
    requires PrintHeader(r) == [LESS] + IntBytes(r.prival) + [GREATER, VERSION, SPACE] + PrintFields(FieldsOf(r))
    requires s == [LESS] + IntBytes(r.prival) + [GREATER, VERSION, SPACE] + afterPri
    requires afterPri == PrintFields(FieldsOf(r)) + afterHeader
    requires afterHeader == PrintData(r.elements) + afterData
    requires afterData == PrintMessage(r.message) + [NEWLINE]
    ensures s == Line(r)
  {
    var front := [LESS] + IntBytes(r.prival) + [GREATER, VERSION, SPACE];
    Regroup(front, PrintFields(FieldsOf(r)), afterHeader);
    Regroup(PrintHeader(r), PrintData(r.elements), afterData);
    Regroup(PrintHeader(r) + PrintData(r.elements), PrintMessage(r.message), [NEWLINE]);
  }

  /** What parses is a printed line, and printing the result gives the same bytes. */
  lemma PrintParsed(s: Str)
    requires Parse(s).Some?
    ensures GoodLine(Parse(s).value) && Line(Parse(s).value) == s
  {
    var r := Parse(s).value;
    var (prival, afterPri) := TakePri(s).value;
    var (fs, afterHeader) := TakeFields(afterPri, 5).value;
    var (es, afterData) := TakeData(afterHeader).value;
    assert fs == FieldsOf(r) && NoSpace(fs[0]) && NoSpace(fs[1]) && NoSpace(fs[2]) && NoSpace(fs[3]) && NoSpace(fs[4]);
    HeaderFields(r);
    LineJoins(s, r, afterPri, afterHeader, afterData);
  }

  /** So the parser accepts exactly the printed lines, contents come back exactly when they are good, and
      different contents never give the same line. */
  lemma LinesExact(s: Str, a: LineRec, b: LineRec)
    ensures Parse(s).Some? <==> exists r :: GoodLine(r) && Line(r) == s
    ensures Parse(Line(a)) == Some(a) <==> GoodLine(a)
    ensures GoodLine(a) && GoodLine(b) && Line(a) == Line(b) ==> a == b
  {
    if Parse(s).Some? {
      PrintParsed(s);
    }
    if exists r :: GoodLine(r) && Line(r) == s {
      var r :| GoodLine(r) && Line(r) == s;
      ParsePrinted(r);
    }
    if GoodLine(a) {
      ParsePrinted(a);
    }
    if Parse(Line(a)).Some? {
      PrintParsed(Line(a));
    }
    if GoodLine(b) {
      ParsePrinted(b);
    }
  }

  /** Escaping is the caller's duty, and it matters: with a bare quote in a value, one param reads as two. */
  lemma UnescapedCollides()
    ensures var one := [ParamRec([97], [120, QUOTE, SPACE, 98, EQUALS, QUOTE, 121])];
            var two := [ParamRec([97], [120]), ParamRec([98], [121])];
            one != two && PrintParams(one) == PrintParams(two)
  {
    var one := [ParamRec([97], [120, QUOTE, SPACE, 98, EQUALS, QUOTE, 121])];
    var two := [ParamRec([97], [120]), ParamRec([98], [121])];
    assert one[1..] == [] && two[1..] == [ParamRec([98], [121])] && two[1..][1..] == [];
    assert PrintParams(two) == PrintParam(two[0]) + (PrintParam(two[1]) + []);
    assert PrintParams(one) == [SPACE, 97, EQUALS, QUOTE, 120, QUOTE, SPACE, 98, EQUALS, QUOTE, 121, QUOTE];
  }
}

/** Rendering an entry into a string builder, after src/formatter.c and the appends of src/entry.c. */
module Formatter {
  import opened Bytes
  import opened Records
  import opened Allocation
  import opened StringBuilder
  import opened Digits
  import opened Rfc5424
  import opened Validate
  import Readers

  /** What the formatter reads from outside the entry: the clock, the host name if the system gives one, the
      process id, and whether the target's options ask for a process id. */
  datatype Env = Env(timestamp: Str, hostname: Option<Str>, pid: int32, withPid: bool)

  /** What the line for an entry says. */
  function Rendered(e: EntryRec, env: Env): LineRec {
    LineRec(
      e.prival,
      env.timestamp,
      if e.hostname != [] then e.hostname else if env.hostname.Some? then env.hostname.value else [DASH],
      e.appName,
      if !env.withPid then [DASH] else if e.procid != [] then e.procid else IntBytes(env.pid),
      e.msgid,
      e.elements,
      e.message)
  }

  method AppendPri(heap: Heap, b: StrBuilder, prival: int32) returns (ok: bool)
    requires b.Ready(heap)
    modifies b, b.buffer, heap
    ensures b.Kept(heap) && heap.refusals == old(heap.refusals) + if ok then 0 else 1
    ensures old(b.position) + |IntBytes(prival)| + 4 <= old(b.buffer.Length) ==> ok
    ensures ok ==> b.Contents() == old(b.Contents()) + [LESS] + IntBytes(prival) + [GREATER, VERSION, SPACE]
  {
    ok := b.AppendChar(heap, LESS);
    if !ok { return; }
    ok := b.AppendPositiveInt(heap, prival);
    if !ok { return; }
    ok := b.AppendString(heap, [GREATER, VERSION, SPACE]);
  }

  method AppendHead(heap: Heap, b: StrBuilder, prival: int32, timestamp: Str) returns (ok: bool)
    requires b.Ready(heap)
    modifies b, b.buffer, heap
    ensures b.Kept(heap) && heap.refusals == old(heap.refusals) + if ok then 0 else 1
    ensures old(b.position) + |IntBytes(prival)| + |timestamp| + 5 <= old(b.buffer.Length) ==> ok
    ensures ok ==> b.Contents() ==
                   old(b.Contents()) + [LESS] + IntBytes(prival) + [GREATER, VERSION, SPACE] + timestamp + [SPACE]
  {
    ok := AppendPri(heap, b, prival);
    if !ok { return; }
    ok := b.AppendBuffer(heap, timestamp);
    if !ok { return; }
    ok := b.AppendChar(heap, SPACE);
  }

  /** The host name, or the system's, or '-'. */
  method AppendHostname(heap: Heap, b: StrBuilder, e: EntryRec, env: Env) returns (ok: bool)
    requires b.Ready(heap)
    modifies b, b.buffer, heap
    ensures b.Kept(heap) && heap.refusals == old(heap.refusals) + if ok then 0 else 1
    ensures old(b.position) + |Rendered(e, env).hostname| <= old(b.buffer.Length) ==> ok
    ensures ok ==> b.Contents() == old(b.Contents()) + Rendered(e, env).hostname
  {
    if |e.hostname| > 0 {
      ok := b.AppendBuffer(heap, e.hostname);
    } else if env.hostname.None? {
      ok := b.AppendChar(heap, DASH);
    } else {
      ok := b.AppendString(heap, env.hostname.value);
    }
  }

  /** The host name and the app name. */
  method AppendNames(heap: Heap, b: StrBuilder, e: EntryRec, env: Env) returns (ok: bool)
    requires b.Ready(heap)
    modifies b, b.buffer, heap
    ensures b.Kept(heap) && heap.refusals == old(heap.refusals) + if ok then 0 else 1
    ensures old(b.position) + |Rendered(e, env).hostname| + |e.appName| + 2 <= old(b.buffer.Length) ==> ok
    ensures ok ==> b.Contents() ==
                   old(b.Contents()) + Rendered(e, env).hostname + [SPACE] + e.appName + [SPACE]
  {
    ok := AppendHostname(heap, b, e, env);
    if !ok { return; }
    ok := b.AppendChar(heap, SPACE);
    if !ok { return; }
    ok := b.AppendBuffer(heap, e.appName);
    if !ok { return; }
    ok := b.AppendChar(heap, SPACE);
  }

  /** The process id if asked for, the entry's own or the current one, else '-'. */
  method AppendProcid(heap: Heap, b: StrBuilder, e: EntryRec, env: Env) returns (ok: bool)
    requires b.Ready(heap)
    modifies b, b.buffer, heap
    ensures b.Kept(heap) && heap.refusals == old(heap.refusals) + if ok then 0 else 1
    ensures old(b.position) + |Rendered(e, env).procid| <= old(b.buffer.Length) ==> ok
    ensures ok ==> b.Contents() == old(b.Contents()) + Rendered(e, env).procid
  {
    if !env.withPid {
      ok := b.AppendChar(heap, DASH);
    } else if |e.procid| > 0 {
      ok := b.AppendBuffer(heap, e.procid);
    } else {
      ok := b.AppendPositiveInt(heap, env.pid);
    }
  }

  /** The process id and the message id. */
  method AppendIds(heap: Heap, b: StrBuilder, e: EntryRec, env: Env) returns (ok: bool)
    requires b.Ready(heap)
    modifies b, b.buffer, heap
    ensures b.Kept(heap) && heap.refusals == old(heap.refusals) + if ok then 0 else 1
    ensures old(b.position) + |Rendered(e, env).procid| + |e.msgid| + 2 <= old(b.buffer.Length) ==> ok
    ensures ok ==> b.Contents() ==
                   old(b.Contents()) + Rendered(e, env).procid + [SPACE] + e.msgid + [SPACE]
  {
    ok := AppendProcid(heap, b, e, env);
    if !ok { return; }
    ok := b.AppendChar(heap, SPACE);
    if !ok { return; }
    ok := b.AppendBuffer(heap, e.msgid);
    if !ok { return; }
    ok := b.AppendChar(heap, SPACE);
  }

  /** A space, the name, and what opens the value. */
  method AppendName(heap: Heap, b: StrBuilder, name: Str) returns (ok: bool)
    requires b.Ready(heap)
    modifies b, b.buffer, heap
    ensures b.Kept(heap) && heap.refusals == old(heap.refusals) + if ok then 0 else 1
    ensures old(b.position) + |name| + 3 <= old(b.buffer.Length) ==> ok
    ensures ok ==> b.Contents() == old(b.Contents()) + [SPACE] + name + [EQUALS] + [QUOTE]
  {
    ok := b.AppendChar(heap, SPACE);
    if !ok { return; }
    ok := b.AppendBuffer(heap, name);
    if !ok { return; }
    ok := b.AppendChar(heap, EQUALS);
    if !ok { return; }
    ok := b.AppendChar(heap, QUOTE);
  }

  method AppendParam(heap: Heap, b: StrBuilder, p: ParamRec) returns (ok: bool)
    requires b.Ready(heap)
    modifies b, b.buffer, heap
    ensures b.Kept(heap) && heap.refusals == old(heap.refusals) + if ok then 0 else 1
    ensures old(b.position) + |PrintParam(p)| <= old(b.buffer.Length) ==> ok
    ensures ok ==> b.Contents() == old(b.Contents()) + PrintParam(p)
  {
    ParamBytes(b.Contents(), p);
    ok := AppendName(heap, b, p.name);
    if !ok { return; }
    ok := b.AppendBuffer(heap, p.value);
    if !ok { return; }
    ok := b.AppendChar(heap, QUOTE);
  }

  lemma ParamBytes(front: Str, p: ParamRec)
    ensures front + [SPACE] + p.name + [EQUALS] + [QUOTE] + p.value + [QUOTE] == front + PrintParam(p)
  {
  }

  lemma {:induction false} PrintParamsSnoc(ps: seq<ParamRec>, i: nat)
    requires i < |ps|
    ensures PrintParams(ps[..i + 1]) == PrintParams(ps[..i]) + PrintParam(ps[i])
    decreases |ps|
  {
    if i == 0 {
      assert ps[..1][1..] == [];
    } else {
      assert ps[..i + 1][1..] == ps[1..][..i] && ps[..i][1..] == ps[1..][..i - 1];
      PrintParamsSnoc(ps[1..], i - 1);
    }
  }

  lemma {:induction false} PrintElementsSnoc(es: seq<ElementRec>, i: nat)
    requires i < |es|
    ensures PrintElements(es[..i + 1]) == PrintElements(es[..i]) + PrintElement(es[i])
    decreases |es|
  {
    if i == 0 {
      assert es[..1][1..] == [];
    } else {
      assert es[..i + 1][1..] == es[1..][..i] && es[..i][1..] == es[1..][..i - 1];
      PrintElementsSnoc(es[1..], i - 1);
    }
  }

  lemma {:induction false} PrintParamsPrefix(ps: seq<ParamRec>, i: nat)
    requires i <= |ps|
    ensures |PrintParams(ps[..i])| <= |PrintParams(ps)|
    decreases |ps|
  {
    if i > 0 {
      assert ps[..i][1..] == ps[1..][..i - 1];
      PrintParamsPrefix(ps[1..], i - 1);
    }
  }

  lemma {:induction false} PrintElementsPrefix(es: seq<ElementRec>, i: nat)
    requires i <= |es|
    ensures |PrintElements(es[..i])| <= |PrintElements(es)|
    decreases |es|
  {
    if i > 0 {
      assert es[..i][1..] == es[1..][..i - 1];
      PrintElementsPrefix(es[1..], i - 1);
    }
  }

  method AppendParams(heap: Heap, b: StrBuilder, ps: seq<ParamRec>) returns (ok: bool)
    requires b.Ready(heap)
    modifies b, b.buffer, heap
    ensures b.Kept(heap) && heap.refusals == old(heap.refusals) + if ok then 0 else 1
    ensures old(b.position) + |PrintParams(ps)| <= old(b.buffer.Length) ==> ok
    ensures ok ==> b.Contents() == old(b.Contents()) + PrintParams(ps)
  {
    ghost var front, done := b.Contents(), [];
    for j := 0 to |ps|
      invariant b.Kept(heap) && heap.refusals == old(heap.refusals)
      invariant b.Contents() == front + done && done == PrintParams(ps[..j])
    {
      PrintParamsSnoc(ps, j);
      PrintParamsPrefix(ps, j + 1);
      ok := AppendParam(heap, b, ps[j]);
      if !ok { return; }
      Regroup(front, done, PrintParam(ps[j]));
      done := done + PrintParam(ps[j]);
    }
    ok := true;
    assert ps[..|ps|] == ps;
  }

  method AppendElement(heap: Heap, b: StrBuilder, e: ElementRec) returns (ok: bool)
    requires b.Ready(heap)
    modifies b, b.buffer, heap
    ensures b.Kept(heap) && heap.refusals == old(heap.refusals) + if ok then 0 else 1
    ensures old(b.position) + |PrintElement(e)| <= old(b.buffer.Length) ==> ok
    ensures ok ==> b.Contents() == old(b.Contents()) + PrintElement(e)
  {
    ok := b.AppendChar(heap, LBRACKET);
    if !ok { return; }
    ok := b.AppendBuffer(heap, e.name);
    if !ok { return; }
    ok := AppendParams(heap, b, e.params);
    if !ok { return; }
    ok := b.AppendChar(heap, RBRACKET);
    ElementBytes(old(b.Contents()), e);
  }

  lemma ElementBytes(front: Str, e: ElementRec)
    ensures front + [LBRACKET] + e.name + PrintParams(e.params) + [RBRACKET] == front + PrintElement(e)
  {
  }

  method AppendElements(heap: Heap, b: StrBuilder, es: seq<ElementRec>) returns (ok: bool)
    requires b.Ready(heap)
    modifies b, b.buffer, heap
    ensures b.Kept(heap) && heap.refusals == old(heap.refusals) + if ok then 0 else 1
    ensures old(b.position) + |PrintElements(es)| <= old(b.buffer.Length) ==> ok
    ensures ok ==> b.Contents() == old(b.Contents()) + PrintElements(es)
  {
    ghost var front, done := b.Contents(), [];
    for i := 0 to |es|
      invariant b.Kept(heap) && heap.refusals == old(heap.refusals)
      invariant b.Contents() == front + done && done == PrintElements(es[..i])
    {
      PrintElementsSnoc(es, i);
      PrintElementsPrefix(es, i + 1);
      ok := AppendElement(heap, b, es[i]);
      if !ok { return; }
      Regroup(front, done, PrintElement(es[i]));
      done := done + PrintElement(es[i]);
    }
    ok := true;
    assert es[..|es|] == es;
  }

  method AppendStructuredData(heap: Heap, b: StrBuilder, es: seq<ElementRec>) returns (ok: bool)
    requires b.Ready(heap)
    modifies b, b.buffer, heap
    ensures b.Kept(heap) && heap.refusals == old(heap.refusals) + if ok then 0 else 1
    ensures old(b.position) + |PrintData(es)| <= old(b.buffer.Length) ==> ok
    ensures ok ==> b.Contents() == old(b.Contents()) + PrintData(es)
  {
    if |es| == 0 {
      ok := b.AppendChar(heap, DASH);
    } else {
      ok := AppendElements(heap, b, es);
    }
  }

  method AppendMessage(heap: Heap, b: StrBuilder, message: Str) returns (ok: bool)
    requires b.Ready(heap)
    modifies b, b.buffer, heap
    ensures b.Kept(heap) && heap.refusals == old(heap.refusals) + if ok then 0 else 1
    ensures old(b.position) + |PrintMessage(message)| <= old(b.buffer.Length) ==> ok
    ensures ok ==> b.Contents() == old(b.Contents()) + PrintMessage(message)
  {
    if |message| == 0 {
      assert b.Contents() + [] == b.Contents();
      return true;
    }
    assert b.Contents() + [SPACE] + message == b.Contents() + PrintMessage(message);
    ok := b.AppendChar(heap, SPACE);
    if !ok { return; }
    ok := b.AppendBuffer(heap, message);
  }

  method AppendTail(heap: Heap, b: StrBuilder, message: Str) returns (ok: bool)
    requires b.Ready(heap)
    modifies b, b.buffer, heap
    ensures b.Kept(heap) && heap.refusals == old(heap.refusals) + if ok then 0 else 1
    ensures old(b.position) + |PrintMessage(message)| + 1 <= old(b.buffer.Length) ==> ok
    ensures ok ==> b.Contents() == old(b.Contents()) + PrintMessage(message) + [NEWLINE]
  {
    ok := AppendMessage(heap, b, message);
    if !ok { return; }
    ok := b.AppendChar(heap, NEWLINE);
  }

  lemma HeaderBytes(front: Str, r: LineRec)
    ensures front + [LESS] + IntBytes(r.prival) + [GREATER, VERSION, SPACE] + r.timestamp + [SPACE]
            + r.hostname + [SPACE] + r.appName + [SPACE] + r.procid + [SPACE] + r.msgid + [SPACE]
         == front + PrintHeader(r)
    ensures |PrintHeader(r)| == |IntBytes(r.prival)| + |r.timestamp| + 5 + |r.hostname| + |r.appName| + 2
                                + |r.procid| + |r.msgid| + 2
  {
    var head := [LESS] + IntBytes(r.prival) + [GREATER, VERSION, SPACE] + r.timestamp + [SPACE];
    assert head + r.hostname + [SPACE] + r.appName + [SPACE] + r.procid + [SPACE] + r.msgid + [SPACE]
        == PrintHeader(r);
  }

  method AppendHeader(heap: Heap, b: StrBuilder, e: EntryRec, env: Env) returns (ok: bool)
    requires b.Ready(heap) && -0x8000_0000 <= e.prival < 0x8000_0000
    modifies b, b.buffer, heap
    ensures b.Kept(heap) && heap.refusals == old(heap.refusals) + if ok then 0 else 1
    ensures old(b.position) + |PrintHeader(Rendered(e, env))| <= old(b.buffer.Length) ==> ok
    ensures ok ==> b.Contents() == old(b.Contents()) + PrintHeader(Rendered(e, env))
  {
    HeaderBytes(b.Contents(), Rendered(e, env));
    ok := AppendHead(heap, b, e.prival, env.timestamp);
    if !ok { return; }
    ok := AppendNames(heap, b, e, env);
    if !ok { return; }
    ok := AppendIds(heap, b, e, env);
  }

  /** `format_entry` into the empty builder `strbuilder_new` gave it: the whole line, or a refused allocation. A line
      that fits the buffer cannot fail. */
  method FormatEntry(heap: Heap, b: StrBuilder, e: EntryRec, env: Env) returns (ok: bool)
    requires b.Ready(heap) && b.Contents() == []
    requires -0x8000_0000 <= e.prival < 0x8000_0000
    modifies b, b.buffer, heap
    ensures b.Kept(heap) && heap.refusals == old(heap.refusals) + if ok then 0 else 1
    ensures |Line(Rendered(e, env))| <= old(b.buffer.Length) ==> ok
    ensures ok ==> b.Contents() == Line(Rendered(e, env))
    ensures ok && ValidEntry(e) && ValidEnv(env) ==> Says(b.Contents(), e, env)
  {
    ok := AppendHeader(heap, b, e, env);
    if !ok { return; }
    ok := AppendStructuredData(heap, b, e.elements);
    if !ok { return; }
    ok := AppendTail(heap, b, e.message);
    LineBytes(Rendered(e, env));
    LineSays(e, env);
  }

  lemma LineBytes(r: LineRec)
    ensures [] + PrintHeader(r) + PrintData(r.elements) + PrintMessage(r.message) + [NEWLINE] == Line(r)
    ensures |Line(r)| == |PrintHeader(r)| + |PrintData(r.elements)| + |PrintMessage(r.message)| + 1
  {
  }

  /** An entry built by the validating calls, with values escaped by the caller. */
  predicate ValidEntry(e: EntryRec) {
    && 0 <= e.prival <= 191
    && ValidHostname(e.hostname) && ValidAppName(e.appName) && ValidProcid(e.procid) && ValidMsgid(e.msgid)
    && GoodElements(e.elements)
  }

  predicate ValidEnv(env: Env) {
    NoSpace(env.timestamp) && (env.hostname.Some? ==> NoSpace(env.hostname.value))
  }

  /** No byte of a rendered int is a space, not even of a negative one. */
  lemma IntBytesNoSpace(i: int32)
    ensures NoSpace(IntBytes(i))
  {
    IntBytesRange(i);
  }

  lemma {:induction false} WordsOfFields(fs: seq<Str>, rest: Str, k: nat)
    requires k < |fs| && forall i | 0 <= i < |fs| :: NoSpace(fs[i])
    ensures Readers.Word(PrintFields(fs) + rest, k) == Some(fs[k])
    decreases k
  {
    Regroup(fs[0] + [SPACE], PrintFields(fs[1..]), rest);
    Readers.WordBack(fs[0], PrintFields(fs[1..]) + rest, k);
    if k > 0 {
      WordsOfFields(fs[1..], rest, k - 1);
    }
  }

  /** The order of the header, word by word, whatever the prival, the structured data and the message are: priority and
      version, timestamp, host name, app name, process id, message id. */
  lemma HeaderWords(e: EntryRec, env: Env)
    requires -0x8000_0000 <= e.prival < 0x8000_0000
    requires NoSpace(e.hostname) && NoSpace(e.appName) && NoSpace(e.procid) && NoSpace(e.msgid) && ValidEnv(env)
    ensures var line := Line(Rendered(e, env));
            && Readers.Word(line, 0) == Some([60] + IntBytes(e.prival) + [62, 49])
            && Readers.Word(line, 1) == Some(env.timestamp)
            && Readers.Word(line, 2).Some? && SaysHostname(Readers.Word(line, 2).value, e, env)
            && Readers.Word(line, 3) == Some(e.appName)
            && Readers.Word(line, 4).Some? && SaysProcid(Readers.Word(line, 4).value, e, env)
            && Readers.Word(line, 5) == Some(e.msgid)
  {
    var r := Rendered(e, env);
    var line, fs := Line(r), FieldsOf(r);
    var first := [60] + IntBytes(e.prival) + [62, 49];
    var rest := PrintData(r.elements) + PrintMessage(r.message) + [NEWLINE];
    IntBytesNoSpace(e.prival);
    IntBytesNoSpace(env.pid);
    HeaderFields(r);
    LineParts(r, first, PrintFields(fs), rest);
    forall k | 0 <= k < 6
      ensures Readers.Word(line, k) == Some(if k == 0 then first else fs[k - 1])
    {
      Readers.WordBack(first, PrintFields(fs) + rest, k);
      if k > 0 {
        WordsOfFields(fs, rest, k - 1);
      }
    }
    ProcidSays(e, env);
  }

  lemma LineParts(r: LineRec, first: Str, fields: Str, rest: Str)
    requires first == [60] + IntBytes(r.prival) + [62, 49]
    requires PrintHeader(r) == [LESS] + IntBytes(r.prival) + [GREATER, VERSION, SPACE] + fields
    requires rest == PrintData(r.elements) + PrintMessage(r.message) + [NEWLINE]
    ensures Line(r) == first + [32] + (fields + rest)
  {
    assert PrintHeader(r) == first + [32] + fields;
    Regroup(first + [32], fields, rest);
  }

  /** A parser finds every field of the entry in its own place in the line, with the defaults for an empty host name and
      process id. */
  predicate Says(line: Str, e: EntryRec, env: Env) {
    match Parse(line)
    case None => false
    case Some(r) =>
      && r.prival == e.prival && r.timestamp == env.timestamp && r.appName == e.appName && r.msgid == e.msgid
      && r.elements == e.elements && r.message == e.message
      && SaysHostname(r.hostname, e, env) && SaysProcid(r.procid, e, env)
  }

  /** The entry's host name, else the system's, else a dash. */
  predicate SaysHostname(hostname: Str, e: EntryRec, env: Env) {
    && (e.hostname != [] ==> hostname == e.hostname)
    && (e.hostname == [] && env.hostname.Some? ==> hostname == env.hostname.value)
    && (e.hostname == [] && env.hostname.None? ==> hostname == [45])
  }

  /** A dash if none is asked for, else the entry's process id, else the digits of the current one. */
  predicate SaysProcid(procid: Str, e: EntryRec, env: Env) {
    && (!env.withPid ==> procid == [45])
    && (env.withPid && e.procid != [] ==> procid == e.procid)
    && (env.withPid && e.procid == [] ==>
          procid == IntBytes(env.pid) && (env.pid >= 0 ==> AllDigits(procid) && Value(procid) == env.pid))
    && (procid == [45] <==> !env.withPid || e.procid == [45] || (e.procid == [] && env.pid == -3))
  }

  /** Of all ints only -3 renders as a dash, whose code is three below that of zero. */
  lemma DashIsMinusThree(i: int32)
    ensures IntBytes(i) == [45] <==> i == -3
  {
    if i >= 0 {
      DigitBytesDecimal(i);
      assert IntBytes(i) != [] ==> IsDigit(IntBytes(i)[0]);
    } else {
      var n: nat := -(i as int);
      DigitBytesDecimal(n);
      NegativeMirrors(n);
      if IntBytes(i) == [45] {
        assert DigitBytes(n) == [51];
        assert Value([51]) == 3 by { assert [51][..0] == []; }
      }
      assert DigitBytes(-3) == DigitBytes(0) + [45];
    }
  }

  lemma LineSays(e: EntryRec, env: Env)
    ensures ValidEntry(e) && ValidEnv(env) ==> Says(Line(Rendered(e, env)), e, env)
  {
    if ValidEntry(e) && ValidEnv(env) {
      IntBytesNoSpace(env.pid);
      assert GoodLine(Rendered(e, env));
      ParsePrinted(Rendered(e, env));
      ProcidSays(e, env);
    }
  }

  lemma ProcidSays(e: EntryRec, env: Env)
    ensures SaysProcid(Rendered(e, env).procid, e, env)
  {
    DashIsMinusThree(env.pid);
    if env.pid >= 0 {
      DigitBytesDecimal(env.pid);
      assert Value([ZERO]) == 0;
    }
  }

  /** The line of a valid entry parses back to all that was rendered, so two valid entries that render alike in one
      environment agree in prival, app name, msgid, structured data and message. */
  lemma EntriesParseBack(a: EntryRec, b: EntryRec, env: Env)
    requires ValidEntry(a) && ValidEntry(b) && ValidEnv(env)
    ensures Parse(Line(Rendered(a, env))) == Some(Rendered(a, env))
    ensures Line(Rendered(a, env)) == Line(Rendered(b, env)) ==>
              && a.prival == b.prival && a.appName == b.appName && a.msgid == b.msgid
              && a.elements == b.elements && a.message == b.message
    ensures Line(Rendered(a, env)) == Line(Rendered(b, env)) && a.hostname != [] && b.hostname != [] ==>
              a.hostname == b.hostname
  {
    IntBytesNoSpace(env.pid);
    assert GoodLine(Rendered(a, env)) && GoodLine(Rendered(b, env));
    ParsePrinted(Rendered(a, env));
    ParsePrinted(Rendered(b, env));
  }
}

/** The thread-local entries that the log and trace calls of src/target.c reuse from one call to the next. */
module ThreadLog {
  import opened Allocation
  import opened Bytes
  import opened Records
  import opened Validate
  import opened Digits
  import opened StructuredData
  import opened Rfc5424
  import opened Formatter
  import opened BuilderPool
  import Memory
  import Slab
  import Readers
  import Utf8

  // the names, in ASCII
  const TRACE: Str := [116, 114, 97, 99, 101] // trace
  const FILE: Str := [102, 105, 108, 101] // file
  const LINE: Str := [108, 105, 110, 101] // line
  const FUNCTION: Str := [102, 117, 110, 99, 116, 105, 111, 110] // function

  /** What a target lends to the entries logged to it. */
  datatype Defaults = Defaults(appName: Str, msgid: Str) {
    predicate Fits() {
      ValidAppName(appName) && ValidMsgid(msgid)
    }
  }

  /** What a call renders when it succeeds: a matter of its arguments and the target's defaults alone. */
  function LogEntry(d: Defaults, priority: int, message: Str, elements: seq<ElementRec>): EntryRec {
    EntryRec(priority, [], d.appName, [], d.msgid, elements, message)
  }

  function TraceElement(file: Str, line: Str, func: Str): ElementRec {
    ElementRec(TRACE, [ParamRec(FILE, file), ParamRec(LINE, line), ParamRec(FUNCTION, func)])
  }

  /** Each field from where it should come. */
  predicate Holds(e: EntryRec, d: Defaults, priority: int, text: Str) {
    && e.prival == priority && e.appName == d.appName && e.msgid == d.msgid && e.message == text
    && e.hostname == [] && e.procid == []
  }

  /** One element named `trace`, with the file, the digits of the line, and the function. */
  predicate Traces(es: seq<ElementRec>, file: Str, line: int32, func: Str) {
    && |es| == 1 && es[0].name == Ascii("trace") && |es[0].params| == 3
    && es[0].params[0] == ParamRec(Ascii("file"), file)
    && es[0].params[1] == ParamRec(Ascii("line"), IntBytes(line))
    && es[0].params[2] == ParamRec(Ascii("function"), func)
  }

  lemma KeysSpelled()
    ensures TRACE == Ascii("trace") && FILE == Ascii("file") && LINE == Ascii("line") && FUNCTION == Ascii("function")
  {
  }

  /** `memcpy` over the start of a fixed buffer: what lies beyond stays. */
  function Overwrite(buffer: Str, data: Str): Str
    requires |data| <= |buffer|
  {
    data + buffer[|data|..]
  }

  // ----- the name buffers

  /** What the calls write over a name buffer: a dash with its terminator, or a default name without one. */
  datatype NameOp = Loaded | Stamped(name: CText)

  predicate FitIn(ops: seq<NameOp>, size: nat) {
    forall i | 0 <= i < |ops| :: ops[i].Stamped? ==> |ops[i].name| < size
  }

  /** A buffer after those writes, static storage starting out as zeros. */
  function Replay(ops: seq<NameOp>, size: nat): (buffer: Str)
    requires size > 2 && FitIn(ops, size)
    ensures |buffer| == size
  {
    if ops == [] then seq(size, _ => NUL)
    else
      var buffer := Replay(ops[..|ops| - 1], size);
      match ops[|ops| - 1]
      case Loaded => Overwrite(buffer, [DASH, NUL])
      case Stamped(name) => Overwrite(buffer, name)
  }

  /** The first write is a load's. */
  predicate FromLoad(ops: seq<NameOp>) {
    ops != [] && ops[0].Loaded?
  }

  /** A name buffer that its writes account for. */
  predicate Replayed(buffer: Str, ops: seq<NameOp>, size: nat) {
    size > 2 && |buffer| == size && FitIn(ops, size) && buffer == Replay(ops, size) && (ops != [] ==> FromLoad(ops))
  }

  function Written(op: NameOp): Str {
    match op
    case Loaded => [DASH, NUL]
    case Stamped(name) => name
  }

  lemma OneWriteMore(buffer: Str, ops: seq<NameOp>, op: NameOp, size: nat)
    requires Replayed(buffer, ops, size) && |Written(op)| < size && (ops == [] ==> op.Loaded?)
    ensures Replayed(Overwrite(buffer, Written(op)), ops + [op], size)
    ensures Overwrite(buffer, Written(op))[..|Written(op)|] == Written(op)
  {
    assert (ops + [op])[..|ops|] == ops;
  }

  function AfterLoad(ops: seq<NameOp>): seq<NameOp> {
    if ops == [] || ops[|ops| - 1].Loaded? then [] else AfterLoad(ops[..|ops| - 1]) + [ops[|ops| - 1]]
  }

  predicate NoneLonger(ops: seq<NameOp>, n: nat) {
    forall i | 0 <= i < |ops| :: ops[i].Stamped? ==> |ops[i].name| <= n
  }

  lemma NoneLongerSnoc(ops: seq<NameOp>, last: NameOp, n: nat)
    ensures NoneLonger(ops + [last], n) <==> NoneLonger(ops, n) && (last.Stamped? ==> |last.name| <= n)
  {
    assert forall i | 0 <= i < |ops| :: (ops + [last])[i] == ops[i];
    assert (ops + [last])[|ops|] == last;
  }

  /** One write more: the byte is the write's own, or what it was. */
  lemma ReplayStep(ops: seq<NameOp>, size: nat, k: nat)
    requires size > 2 && FitIn(ops, size) && k < size && ops != []
    ensures FitIn(ops[..|ops| - 1], size)
    ensures var was, last := Replay(ops[..|ops| - 1], size)[k], ops[|ops| - 1];
            Replay(ops, size)[k] == NUL <==>
              if last.Loaded? then k == 1 || (k != 0 && was == NUL) else k >= |last.name| && was == NUL
  {
    var last := ops[|ops| - 1];
    if last.Stamped? && k < |last.name| {
      assert Replay(ops, size)[k] == last.name[k];
    }
  }

  /** The k-th byte is a NUL: never the first once something was loaded; the second if no stamp since the last load was
      longer than one; any other if no stamp ever was longer than its index. */
  lemma {:induction false} NulExactly(ops: seq<NameOp>, size: nat, k: nat)
    requires size > 2 && FitIn(ops, size) && k < size
    ensures k == 0 && ops != [] && ops[0].Loaded? ==> Replay(ops, size)[k] != NUL
    ensures k == 1 ==> (Replay(ops, size)[k] == NUL <==> NoneLonger(AfterLoad(ops), 1))
    ensures k >= 2 ==> (Replay(ops, size)[k] == NUL <==> NoneLonger(ops, k))
    decreases |ops|
  {
    if ops != [] {
      var front, last := ops[..|ops| - 1], ops[|ops| - 1];
      ReplayStep(ops, size, k);
      NulExactly(front, size, k);
      assert ops == front + [last];
      NoneLongerSnoc(front, last, k);
      NoneLongerSnoc(AfterLoad(front), last, 1);
    }
  }

  /** Whether the name stamped last has a terminator behind it, so that a C string read finds just the name. */
  predicate Terminating(ops: seq<NameOp>, n: nat) {
    n >= 1 && (if n == 1 then NoneLonger(AfterLoad(ops), 1) else NoneLonger(ops, n))
  }

  /** The exact condition for a C string read, and so a copy, of a cached entry's name to keep it: the name is not empty
      and no longer one was stamped before, since the last load if it has one byte, ever if it has more. */
  lemma CachedNameKept(ops: seq<NameOp>, size: nat, name: CText, found: Str)
    requires size > 2 && FitIn(ops, size) && FromLoad(ops) && ops[|ops| - 1] == Stamped(name)
    requires Reads(found, name, Replay(ops, size)[|name|..])
    ensures Replay(ops, size)[..|name|] == name
    ensures found == name <==> Terminating(ops, |name|)
  {
    NulExactly(ops, size, |name|);
    ReadsTheName(found, name, Replay(ops, size)[|name|..]);
  }

  /** A shorter name stamped over a longer one reads as itself with the rest of the longer one behind it: after the app
      names `longer` and `-` the entry's name is one byte long, and a copy of the entry has the app name `-onger`. */
  lemma ShortAfterLong(long: CText, short: CText, size: nat)
    requires |short| < |long| < size && |long| >= 2
    ensures var ops := [Loaded, Stamped(long), Stamped(short)];
            && FitIn(ops, size) && !Terminating(ops, |short|)
            && CString(Replay(ops, size)) == Some(short + long[|short|..])
  {
    var ops := [Loaded, Stamped(long), Stamped(short)];
    assert ops[..2] == [Loaded, Stamped(long)] && ops[..2][..1] == [Loaded] && [Loaded][..0] == [];
    var zeros: Str := seq(size, _ => NUL);
    var b1 := Overwrite(zeros, [DASH, NUL]);
    var b2 := Overwrite(b1, long);
    assert Replay([Loaded], size) == b1;
    assert Replay(ops[..2], size) == b2;
    assert Replay(ops, size) == Overwrite(b2, short) == short + long[|short|..] + zeros[|long|..];
    CStringAt(short + long[|short|..], zeros[|long|..]);
    LongerBefore(long, short);
  }

  lemma LongerBefore(long: CText, short: CText)
    requires |short| < |long|
    ensures !Terminating([Loaded, Stamped(long), Stamped(short)], |short|)
  {
    var ops := [Loaded, Stamped(long), Stamped(short)];
    assert ops[..2] == [Loaded, Stamped(long)] && ops[..2][..1] == [Loaded];
    assert AfterLoad([Loaded]) == [];
    assert AfterLoad(ops[..2]) == [Stamped(long)];
    assert AfterLoad(ops) == [Stamped(long), Stamped(short)];
    assert AfterLoad(ops)[0] == ops[1] == Stamped(long);
  }

  /** `stumpless_get_entry_app_name`: copies one byte more than the name's length, so the result is a C string if and
      only if that byte is the terminator. */
  method GetEntryAppName(heap: Heap, buffer: Str, length: nat) returns (copy: array?<byte>)
    requires length < |buffer| && NoNul(buffer[..length])
    modifies heap
    ensures heap.live == if copy == null then old(heap.live) else old(heap.live) + {copy}
    ensures heap.refusals == old(heap.refusals) + if copy == null then 1 else 0
    ensures copy != null ==>
      && fresh(copy) && copy[..] == buffer[..length + 1] && (IsCString(copy[..]) <==> buffer[length] == NUL)
  {
    copy := heap.Malloc(length + 1);
    if copy != null {
      Memory.MemCopy(copy, 0, buffer[..length + 1]);
      assert copy[..] == copy[..length + 1] == buffer[..length + 1];
      assert buffer[..length + 1][..length] == buffer[..length];
    }
  }

  /** One reused entry, with the fixed name buffers of the struct. Only the first `...Length` bytes count. */
  class CachedEntry {
    var valid: bool
    var prival: int
    var appName: Str
    var appNameLength: nat
    var msgid: Str
    var msgidLength: nat
    var hostname: Str
    var procid: Str
    var message: Str
    var elements: seq<ElementRec>
    // every write to either name buffer so far
    ghost var appOps: seq<NameOp>
    ghost var msgidOps: seq<NameOp>

    ghost predicate Sound()
      reads this
    {
      && Replayed(appName, appOps, MAX_APP_NAME_LENGTH + 1) && Replayed(msgid, msgidOps, MAX_MSGID_LENGTH + 1)
      && appNameLength < |appName| && msgidLength < |msgid|
      && (valid ==> hostname == [] && procid == [] && appOps != [] && msgidOps != [])
    }

    function View(): EntryRec
      requires appNameLength <= |appName| && msgidLength <= |msgid|
      reads this
    {
      EntryRec(prival, hostname, appName[..appNameLength], procid, msgid[..msgidLength], elements, message)
    }

    constructor ()
      ensures Sound() && !valid
    {
      valid := false;
      prival, hostname, procid, message, elements := 0, [], [], [], [];
      appName, appNameLength := seq(MAX_APP_NAME_LENGTH + 1, _ => NUL), 0;
      msgid, msgidLength := seq(MAX_MSGID_LENGTH + 1, _ => NUL), 0;
      appOps, msgidOps := [], [];
    }

    /** `stumpless_load_entry_str`: the copy of the message may be refused or, half way, the mutex. */
    method Load(heap: Heap, text: Str) returns (ok: bool)
      requires Sound() && !valid
      modifies this, heap`refusals
      ensures Sound() && !valid && heap.refusals == old(heap.refusals) + if ok then 0 else 1
      ensures ok ==> hostname == [] && procid == [] && elements == [] && message == text
      ensures ok ==> appOps == old(appOps) + [Loaded] && msgidOps == old(msgidOps) + [Loaded]
    {
      ok := heap.Granted();
      if !ok { return; }
      DashNames();
      ok := heap.Granted();
      if !ok { return; }
      procid, hostname, message, elements := [], [], text, [];
    }

    /** The part of a load that writes the names. */
    method DashNames()
      requires Sound() && !valid
      modifies this`appName, this`appNameLength, this`msgid, this`msgidLength, this`appOps, this`msgidOps
      ensures Sound() && appOps == old(appOps) + [Loaded] && msgidOps == old(msgidOps) + [Loaded]
    {
      OneWriteMore(appName, appOps, Loaded, MAX_APP_NAME_LENGTH + 1);
      OneWriteMore(msgid, msgidOps, Loaded, MAX_MSGID_LENGTH + 1);
      appName, appNameLength, appOps := Overwrite(appName, [DASH, NUL]), 1, appOps + [Loaded];
      msgid, msgidLength, msgidOps := Overwrite(msgid, [DASH, NUL]), 1, msgidOps + [Loaded];
    }

    /** `stumpless_set_entry_message_str`. */
    method SetMessage(heap: Heap, text: Str) returns (ok: bool)
      modifies this`message, heap`refusals
      ensures message == (if ok then text else old(message))
      ensures heap.refusals == old(heap.refusals) + if ok then 0 else 1
    {
      ok := heap.Granted();
      if ok {
        message := text;
      }
    }

    /** The priority and the target's names are written over what the last call left. The entry then reads as the call
        says, while the buffers keep every byte behind the new names. */
    method Stamp(d: Defaults, priority: int)
      requires Sound() && d.Fits() && appOps != [] && msgidOps != []
      modifies this`prival, this`appName, this`appNameLength, this`msgid, this`msgidLength, this`appOps, this`msgidOps
      ensures Sound() && View() == EntryRec(priority, hostname, d.appName, procid, d.msgid, elements, message)
      ensures appName == Overwrite(old(appName), d.appName) && appOps == old(appOps) + [Stamped(d.appName)]
      ensures msgid == Overwrite(old(msgid), d.msgid) && msgidOps == old(msgidOps) + [Stamped(d.msgid)]
    {
      OneWriteMore(appName, appOps, Stamped(d.appName), MAX_APP_NAME_LENGTH + 1);
      OneWriteMore(msgid, msgidOps, Stamped(d.msgid), MAX_MSGID_LENGTH + 1);
      prival := priority;
      appName, appNameLength, appOps := Overwrite(appName, d.appName), |d.appName|, appOps + [Stamped(d.appName)];
      msgid, msgidLength, msgidOps := Overwrite(msgid, d.msgid), |d.msgid|, msgidOps + [Stamped(d.msgid)];
    }

    /** What a copy of the entry makes of its names, just after they were stamped. */
    lemma StampedNamesKept(foundApp: Str, foundMsgid: Str, appStamp: CText, msgidStamp: CText)
      requires Sound() && FromLoad(appOps) && FromLoad(msgidOps)
      requires appOps[|appOps| - 1] == Stamped(appStamp) && msgidOps[|msgidOps| - 1] == Stamped(msgidStamp)
      requires Reads(foundApp, appStamp, appName[|appStamp|..]) && Reads(foundMsgid, msgidStamp, msgid[|msgidStamp|..])
      ensures foundApp == appStamp <==> Terminating(appOps, |appStamp|)
      ensures foundMsgid == msgidStamp <==> Terminating(msgidOps, |msgidStamp|)
    {
      CachedNameKept(appOps, MAX_APP_NAME_LENGTH + 1, appStamp, foundApp);
      CachedNameKept(msgidOps, MAX_MSGID_LENGTH + 1, msgidStamp, foundMsgid);
    }

    /** `stumpless_set_entry_param_value_by_name`, as module Graph proves it. */
    method SetParamValue(heap: Heap, name: Str, param: Str, value: Str) returns (ok: bool)
      modifies this`elements, heap`refusals
      ensures elements == if ok then Set(old(elements), name, param, value) else old(elements)
      ensures ok <==> ValidValue(value) && heap.refusals == old(heap.refusals)
      ensures old(heap.refusals) <= heap.refusals <= old(heap.refusals) + 1
    {
      ok := Usable(value);
      if ok {
        ok := heap.Granted();
      }
      if ok {
        elements := Set(elements, name, param, value);
      }
    }

    /** The part of `stumpless_trace_entry` that edits the entry; it stops at the first failure, after `done` sets. */
    method TraceEntry(heap: Heap, file: CText, line: int32, func: CText) returns (ok: bool, ghost done: nat)
      modifies this`elements, heap`refusals
      ensures done <= 3 && elements == TraceSteps(old(elements), file, IntBytes(line), func, done)
      ensures ok <==> done == 3
      ensures ok <==> ValidValue(file) && ValidValue(func) && heap.refusals == old(heap.refusals)
      ensures old(heap.refusals) <= heap.refusals <= old(heap.refusals) + 1
    {
      var lineStr := LineString(line);
      done := 0;
      ok := SetParamValue(heap, TRACE, FILE, file);
      if !ok { return; }
      done := 1;
      assert elements == TraceSteps(old(elements), file, IntBytes(line), func, 1);
      ok := SetParamValue(heap, TRACE, LINE, lineStr);
      if !ok { return; }
      done := 2;
      assert elements == TraceSteps(old(elements), file, IntBytes(line), func, 2);
      ok := SetParamValue(heap, TRACE, FUNCTION, func);
      if !ok { return; }
      done := 3;
    }
  }

  method Usable(value: Str) returns (ok: bool)
    ensures ok <==> ValidValue(value)
  {
    ok := Utf8.ValidateUtf8Compliance(value);
    ok := ok && NoNul(value);
  }

  /** The line number, rendered in a local buffer; it is always taken as a value. */
  method LineString(line: int32) returns (str: Str)
    ensures str == IntBytes(line) && ValidValue(str)
  {
    var digits := new byte[MAX_INT_SIZE];
    var start := DigitsBackwards(line, digits);
    str := digits[start..digits.Length - 1];
    assert str == digits[start..][..|str|] == IntBytes(line);
    IntBytesRange(line);
    Utf8.AsciiAccepted(str);
  }

  /** The structured data after the first `k` of the three sets of a trace. */
  function TraceSteps(es: seq<ElementRec>, file: Str, line: Str, func: Str, k: nat): seq<ElementRec> {
    if k == 0 then es
    else if k == 1 then Set(es, TRACE, FILE, file)
    else if k == 2 then Set(TraceSteps(es, file, line, func, 1), TRACE, LINE, line)
    else Set(TraceSteps(es, file, line, func, 2), TRACE, FUNCTION, func)
  }

  function TraceSet(es: seq<ElementRec>, file: Str, line: Str, func: Str): seq<ElementRec> {
    TraceSteps(es, file, line, func, 3)
  }

  /** On any entry, a trace leaves the three values to be looked up and every other pair as it was. */
  lemma TraceLooksUp(es: seq<ElementRec>, file: Str, line: Str, func: Str, e: Str, p: Str)
    ensures Lookup(TraceSet(es, file, line, func), e, p)
         == if e != TRACE then Lookup(es, e, p)
            else if p == FUNCTION then Some(func)
            else if p == LINE then Some(line)
            else if p == FILE then Some(file)
            else Lookup(es, e, p)
  {
    assert |FILE| == 4 && |FUNCTION| == 8 && FILE[0] != LINE[0];
    SetThenLookup(es, TRACE, FILE, file, e, p);
    SetThenLookup(TraceSteps(es, file, line, func, 1), TRACE, LINE, line, e, p);
    SetThenLookup(TraceSteps(es, file, line, func, 2), TRACE, FUNCTION, func, e, p);
  }

  /** The shape of the trace entry's structured data between calls. */
  predicate TraceShaped(es: seq<ElementRec>) {
    && |es| == 1 && es[0].name == TRACE && |es[0].params| == 3
    && es[0].params[0].name == FILE && es[0].params[1].name == LINE && es[0].params[2].name == FUNCTION
  }

  lemma SetOnTrace(es: seq<ElementRec>, k: nat, value: Str)
    requires TraceShaped(es) && k < 3
    ensures var fs := Set(es, TRACE, [FILE, LINE, FUNCTION][k], value);
            TraceShaped(fs) && fs[0].params == es[0].params[k := ParamRec([FILE, LINE, FUNCTION][k], value)]
  {
    assert |FILE| == 4 && |FUNCTION| == 8 && FILE[0] != LINE[0];
    FindElementIs(es, TRACE, 0);
    FindParamIs(es[0].params, [FILE, LINE, FUNCTION][k], k);
  }

  /** However far a trace got, the entry keeps its one `trace` element with the three params in order; a whole
      trace replaces all three values. */
  lemma TraceKeepsShape(es: seq<ElementRec>, file: Str, line: Str, func: Str, k: nat)
    requires TraceShaped(es) && k <= 3
    ensures TraceShaped(TraceSteps(es, file, line, func, k))
    ensures k == 3 ==> TraceSteps(es, file, line, func, k) == [TraceElement(file, line, func)]
  {
    SetOnTrace(es, 0, file);
    var es1 := TraceSteps(es, file, line, func, 1);
    SetOnTrace(es1, 1, line);
    var es2 := TraceSteps(es, file, line, func, 2);
    SetOnTrace(es2, 2, func);
    var es3 := TraceSteps(es, file, line, func, 3);
    assert es3[0].params == TraceElement(file, line, func).params;
    assert es3[0] == TraceElement(file, line, func);
  }

  /** `add_trace_element`: the params start as dashes; if any of its allocations is refused nothing is added. */
  method AddTraceElement(heap: Heap, entry: CachedEntry) returns (ok: bool)
    modifies entry`elements, heap`refusals
    ensures entry.elements == if ok then old(entry.elements) + [TraceElement([DASH], [DASH], [DASH])]
                              else old(entry.elements)
    ensures heap.refusals == old(heap.refusals) + if ok then 0 else 1
  {
    ok := heap.Granted();
    if ok {
      entry.elements := entry.elements + [TraceElement([DASH], [DASH], [DASH])];
    }
  }

  /** A trace on the thread's own trace entry, which is in shape before and after whether it succeeds or not. */
  method TraceShapedEntry(heap: Heap, entry: CachedEntry, file: CText, line: int32, func: CText) returns (ok: bool)
    requires TraceShaped(entry.elements)
    modifies entry`elements, heap`refusals
    ensures TraceShaped(entry.elements)
    ensures ok ==> entry.elements == [TraceElement(file, IntBytes(line), func)]
    ensures ok <==> ValidValue(file) && ValidValue(func) && heap.refusals == old(heap.refusals)
    ensures old(heap.refusals) <= heap.refusals <= old(heap.refusals) + 1
  {
    ghost var before := entry.elements;
    ghost var done;
    ok, done := entry.TraceEntry(heap, file, line, func);
    TraceKeepsShape(before, file, IntBytes(line), func, done);
  }

  /** What the target makes of an entry: whether its filter lets it through, and whether sending works. */
  datatype Fate = Fate(passes: bool, works: bool)

  /** The line that `format_entry` builds in a builder from the pool, whose slot is given back; if an append was refused
      the slot is lost. */
  method FormatAndRelease(heap: Heap, pool: Pool, e: EntryRec, env: Env, lost: set<nat>)
    returns (line: Option<Str>, lost': set<nat>)
    requires pool.Valid() && pool.owner.Keys <= heap.live && -0x8000_0000 <= e.prival < 0x8000_0000
    requires Shared(pool.live, {}, lost)
    modifies pool, pool.structs, pool.owner.Keys, heap
    ensures pool.Went(heap) && Shared(pool.live, {}, lost')
    ensures line == None || line == Some(Line(Rendered(e, env)))
    ensures heap.refusals == old(heap.refusals) + if line.Some? then 0 else 1
    ensures lost' != lost ==> |lost'| == |lost| + 1 && line == None
  {
    line, lost' := None, lost;
    var outcome := pool.FormatBeside(heap, e, env, map[]);
    SharedOn(old(pool.live), pool.live, lost, outcome);
    if outcome.Leaked? {
      lost' := lost + {outcome.slot};
    } else if outcome.Got? {
      var b := pool.structs[outcome.slot];
      line := Some(b.buffer[..b.position]);
      pool.Destroy(outcome.slot);
    }
  }

  /** `stumpless_add_entry`: the line is sent if the filter lets it through, sending works and no allocation is
      refused. */
  method Send(heap: Heap, pool: Pool, e: EntryRec, env: Env, fate: Fate, lost: set<nat>)
    returns (line: Option<Str>, lost': set<nat>)
    requires pool.Valid() && pool.owner.Keys <= heap.live && -0x8000_0000 <= e.prival < 0x8000_0000
    requires Shared(pool.live, {}, lost)
    modifies pool, pool.structs, pool.owner.Keys, heap
    ensures pool.Went(heap) && Shared(pool.live, {}, lost')
    ensures line == if fate == Fate(true, true) && heap.refusals == old(heap.refusals)
                    then Some(Line(Rendered(e, env))) else None
    ensures old(heap.refusals) <= heap.refusals <= old(heap.refusals) + if fate.passes then 1 else 0
    ensures lost' != lost ==> |lost'| == |lost| + 1 && heap.refusals > old(heap.refusals)
  {
    line, lost' := None, lost;
    if fate.passes {
      line, lost' := FormatAndRelease(heap, pool, e, env, lost);
    }
    line := if fate.works then line else None;
  }

  /** The slots after a format, with the builder given back if there is one. */
  lemma SharedOn(before: seq<bool>, after: seq<bool>, lost: set<nat>, outcome: Outcome)
    requires Shared(before, {}, lost)
    requires if outcome.Denied? then Grew(before, after) else Took(before, after, outcome.slot)
    ensures outcome.Denied? ==> Shared(after, {}, lost)
    ensures outcome.Leaked? ==> Shared(after, {}, lost + {outcome.slot}) && outcome.slot !in lost
    ensures outcome.Got? ==> after[outcome.slot] && Shared(after[outcome.slot := false], {}, lost)
  {
  }

  /** The two entries a thread reuses for all its log and trace calls. */
  class ThreadEntries {
    const log: CachedEntry
    const trace: CachedEntry

    ghost predicate Sound()
      reads this, log, trace
    {
      && log != trace && log.Sound() && trace.Sound()
      && (log.valid ==> log.elements == [])
      && (trace.valid ==> TraceShaped(trace.elements))
    }

    twostate lemma Same()
      requires unchanged(log) && unchanged(trace)
      ensures Sound() == old(Sound())
    {
    }

    constructor ()
      ensures Sound() && fresh(log) && fresh(trace)
    {
      log := new CachedEntry();
      trace := new CachedEntry();
    }

    /** What `stumpless_add_log_str` does to the entry: it then says what this call was given, whatever was logged
        before. */
    method FillLog(heap: Heap, d: Defaults, priority: int32, text: Str) returns (ok: bool)
      requires Sound() && d.Fits()
      modifies log, heap`refusals
      ensures Sound() && heap.refusals == old(heap.refusals) + if ok then 0 else 1
      ensures ok ==> log.View() == LogEntry(d, priority, text, [])
      ensures ok ==> Holds(log.View(), d, priority, text) && log.View().elements == []
    {
      ok := ReadyLog(heap, text);
      if ok {
        log.Stamp(d, priority);
      }
    }

    method ReadyLog(heap: Heap, text: Str) returns (ok: bool)
      requires Sound()
      modifies log, heap`refusals
      ensures Sound() && heap.refusals == old(heap.refusals) + if ok then 0 else 1
      ensures ok ==> log.valid && log.message == text
    {
      if log.valid {
        ok := log.SetMessage(heap, text);
        return;
      }
      ok := log.Load(heap, text);
      if ok {
        log.valid := true;
      }
    }

    /** The part of `stumpless_trace_log_str` before the trace itself: a valid entry that holds the message. */
    method ReadyTrace(heap: Heap, text: Str) returns (ok: bool)
      requires Sound()
      modifies trace, heap`refusals
      ensures Sound() && heap.refusals == old(heap.refusals) + if ok then 0 else 1
      ensures ok ==> trace.valid && trace.message == text
    {
      if trace.valid {
        ok := trace.SetMessage(heap, text);
      } else {
        ok := LoadTrace(heap, text);
      }
    }

    method LoadTrace(heap: Heap, text: Str) returns (ok: bool)
      requires Sound() && !trace.valid
      modifies trace, heap`refusals
      ensures Sound() && heap.refusals == old(heap.refusals) + if ok then 0 else 1
      ensures ok ==> trace.valid && trace.message == text
    {
      ok := trace.Load(heap, text);
      if !ok { return; }
      ok := AddTraceElement(heap, trace);
      trace.valid := ok;
    }

    /** What `stumpless_trace_log_str` does to the entry: one `trace` element with `file`, `line` and `function` in that
        order, holding this call's values even if the call before stopped half way. */
    method FillTrace(heap: Heap, d: Defaults, priority: int32, file: CText, line: int32, func: CText, text: Str)
      returns (ok: bool)
      requires Sound() && d.Fits()
      modifies trace, heap`refusals
      ensures Sound() && old(heap.refusals) <= heap.refusals <= old(heap.refusals) + 1
      ensures ok <==> ValidValue(file) && ValidValue(func) && heap.refusals == old(heap.refusals)
      ensures ok ==> trace.View() == LogEntry(d, priority, text, [TraceElement(file, IntBytes(line), func)])
      ensures ok ==> Holds(trace.View(), d, priority, text) && Traces(trace.View().elements, file, line, func)
    {
      ok := ReadyTrace(heap, text);
      if !ok { return; }
      trace.Stamp(d, priority);
      KeysSpelled();
      ok := TraceShapedEntry(heap, trace, file, line, func);
    }

    /** `target_free_thread`. */
    method FreeThread()
      requires Sound()
      modifies log`valid, trace`valid
      ensures Sound() && !log.valid && !trace.valid
    {
      log.valid, trace.valid := false, false;
    }
  }

  datatype LogCall =
    | AddLog(d: Defaults, priority: int32, text: Str, env: Env, fate: Fate)
    | TraceLog(d: Defaults, priority: int32, file: CText, line: int32, func: CText, text: Str, env: Env, fate: Fate)
    | FreeThread

  /** What a call is to put on the wire if no allocation is refused, from its own arguments, the target's defaults and
      what the target makes of it: nothing of what was logged before. */
  function Expected(c: LogCall): Option<Str> {
    match c
    case AddLog(d, priority, text, env, fate) =>
      if fate == Fate(true, true) then Some(Line(Rendered(LogEntry(d, priority, text, []), env))) else None
    case TraceLog(d, priority, file, line, func, text, env, fate) =>
      if fate == Fate(true, true) && ValidValue(file) && ValidValue(func)
      then Some(Line(Rendered(LogEntry(d, priority, text, [TraceElement(file, IntBytes(line), func)]), env)))
      else None
    case FreeThread => None
  }

  /** What is left to send once the entry is filled. */
  predicate ToSend(c: LogCall, e: EntryRec) {
    && !c.FreeThread? && -0x8000_0000 <= e.prival < 0x8000_0000
    && Expected(c) == if c.fate == Fate(true, true) then Some(Line(Rendered(e, c.env))) else None
  }

  /** The part of a call that touches the thread's entries: what there is to send, if anything. */
  method Fill(thread: ThreadEntries, heap: Heap, c: LogCall) returns (e: Option<EntryRec>)
    requires thread.Sound() && (!c.FreeThread? ==> c.d.Fits())
    modifies thread.log, thread.trace, heap`refusals
    ensures thread.Sound() && old(heap.refusals) <= heap.refusals <= old(heap.refusals) + 1
    ensures e.Some? ==> ToSend(c, e.value) && heap.refusals == old(heap.refusals)
    ensures e.None? ==> heap.refusals > old(heap.refusals) || Expected(c) == None
  {
    e := None;
    match c {
      case AddLog(d, priority, text, env, fate) =>
        var ok := thread.FillLog(heap, d, priority, text);
        e := if ok then Some(thread.log.View()) else None;
      case TraceLog(d, priority, file, ln, func, text, env, fate) =>
        var ok := thread.FillTrace(heap, d, priority, file, ln, func, text);
        e := if ok then Some(thread.trace.View()) else None;
      case FreeThread => thread.FreeThread();
    }
  }

  /** Sends what there is to send. */
  method SendFilled(thread: ThreadEntries, heap: Heap, pool: Pool, c: LogCall, e: EntryRec, lost: set<nat>)
    returns (line: Option<Str>, lost': set<nat>)
    requires thread.Sound() && pool.Valid() && pool.owner.Keys <= heap.live && Shared(pool.live, {}, lost)
    requires ToSend(c, e)
    modifies pool, pool.structs, pool.owner.Keys, heap
    ensures thread.Sound() && pool.Went(heap) && Shared(pool.live, {}, lost')
    ensures line == if heap.refusals == old(heap.refusals) then Expected(c) else None
    ensures old(heap.refusals) <= heap.refusals <= old(heap.refusals) + 1
    ensures lost' != lost ==> |lost'| == |lost| + 1 && heap.refusals > old(heap.refusals)
  {
    line, lost' := Send(heap, pool, e, c.env, c.fate, lost);
    thread.Same();
  }

  /** One call of either kind: the entry is filled and sent. The line goes out unless an allocation is refused. */
  method AnyCall(thread: ThreadEntries, heap: Heap, pool: Pool, c: LogCall, lost: set<nat>)
    returns (line: Option<Str>, lost': set<nat>)
    requires thread.Sound() && pool.Valid() && pool.owner.Keys <= heap.live && (!c.FreeThread? ==> c.d.Fits())
    requires Shared(pool.live, {}, lost)
    modifies thread.log, thread.trace, pool, pool.structs, pool.owner.Keys, heap
    ensures thread.Sound() && pool.Went(heap) && Shared(pool.live, {}, lost')
    ensures line == if heap.refusals == old(heap.refusals) then Expected(c) else None
    ensures RightLine(line, heap.refusals > old(heap.refusals), c)
    ensures old(heap.refusals) <= heap.refusals <= old(heap.refusals) + 1
    ensures lost' != lost ==> |lost'| == |lost| + 1 && heap.refusals > old(heap.refusals)
  {
    var e := Fill(thread, heap, c);
    pool.Same();
    line, lost' := None, lost;
    if e.Some? {
      line, lost' := SendFilled(thread, heap, pool, c, e.value, lost);
    }
    ExpectedIsRight(line, heap.refusals > old(heap.refusals), c);
  }

  /** Each line is the one its call determines, and missing only where that is so or an allocation was refused. */
  predicate AsExpected(lines: seq<Option<Str>>, refused: seq<bool>, calls: seq<LogCall>) {
    && |lines| == |refused| <= |calls|
    && forall k | 0 <= k < |lines| :: lines[k] == if refused[k] then None else Expected(calls[k])
  }

  lemma OneLineMore(lines: seq<Option<Str>>, line: Option<Str>, refused: seq<bool>, failed: bool, calls: seq<LogCall>)
    requires AsExpected(lines, refused, calls) && |lines| < |calls|
    requires line == if failed then None else Expected(calls[|lines|])
    ensures AsExpected(lines + [line], refused + [failed], calls)
  {
    var more, flags := lines + [line], refused + [failed];
    forall k | 0 <= k < |more|
      ensures more[k] == if flags[k] then None else Expected(calls[k])
    {
      if k < |lines| {
        assert more[k] == lines[k] && flags[k] == refused[k];
      }
    }
  }

  /** A call that is to send a line, unless an allocation is refused. */
  predicate Due(c: LogCall) {
    && !c.FreeThread? && c.fate.passes && c.fate.works
    && (c.TraceLog? ==> ValidValue(c.file) && ValidValue(c.func))
  }

  /** A call with a facility and severity for its priority, and with what goes into a trace escaped. */
  predicate Proper(c: LogCall) {
    && !c.FreeThread? && c.d.Fits() && 0 <= c.priority <= 191 && ValidEnv(c.env)
    && (c.TraceLog? ==> Escaped(c.file) && Escaped(c.func))
  }

  /** A parser finds in the line each argument of the call in its place. */
  predicate Carries(line: Str, c: LogCall)
    requires !c.FreeThread?
  {
    match Parse(line)
    case None => false
    case Some(r) =>
      && r.prival == c.priority && r.timestamp == c.env.timestamp && r.message == c.text
      && r.appName == c.d.appName && r.msgid == c.d.msgid
      && r.hostname == (if c.env.hostname.Some? then c.env.hostname.value else [45])
      && r.procid == (if c.env.withPid then IntBytes(c.env.pid) else [45])
      && if c.AddLog? then r.elements == [] else Traces(r.elements, c.file, c.line, c.func)
  }

  /** Whatever the priority and the texts, the words of the header are the call's. */
  predicate Heads(line: Str, c: LogCall)
    requires !c.FreeThread?
  {
    && Readers.Word(line, 0) == Some([60] + IntBytes(c.priority) + [62, 49])
    && Readers.Word(line, 1) == Some(c.env.timestamp)
    && Readers.Word(line, 3) == Some(c.d.appName)
    && Readers.Word(line, 5) == Some(c.d.msgid)
  }

  lemma {:induction false} PlainIsEscaped(v: Str)
    requires forall i | 0 <= i < |v| :: v[i] != BACKSLASH && v[i] != QUOTE && v[i] != RBRACKET
    ensures Escaped(v)
  {
    if v != [] {
      PlainIsEscaped(v[1..]);
    }
  }

  lemma TraceIsGood(file: Str, line: int32, func: Str)
    requires Escaped(file) && Escaped(func)
    ensures GoodElements([TraceElement(file, IntBytes(line), func)])
  {
    IntBytesRange(line);
    PlainIsEscaped(IntBytes(line));
    var ps := TraceElement(file, IntBytes(line), func).params;
    assert NameChars(TRACE) && NameChars(FILE) && NameChars(LINE) && NameChars(FUNCTION);
    assert GoodParams(ps);
  }

  lemma CallCarries(c: LogCall)
    requires Expected(c).Some? && Proper(c)
    ensures Carries(Expected(c).value, c)
  {
    KeysSpelled();
    var es := if c.AddLog? then [] else [TraceElement(c.file, IntBytes(c.line), c.func)];
    var e := LogEntry(c.d, c.priority, c.text, es);
    if c.TraceLog? {
      TraceIsGood(c.file, c.line, c.func);
    }
    LineSays(e, c.env);
    assert ValidEntry(e);
    assert Expected(c).value == Line(Rendered(e, c.env));
  }

  lemma CallHeads(c: LogCall)
    requires Expected(c).Some? && c.d.Fits() && ValidEnv(c.env)
    ensures Heads(Expected(c).value, c)
  {
    var es := if c.AddLog? then [] else [TraceElement(c.file, IntBytes(c.line), c.func)];
    HeaderWords(LogEntry(c.d, c.priority, c.text, es), c.env);
  }

  /** A line goes out if one is due and no allocation is refused, and it carries what its own call says. */
  predicate RightLine(line: Option<Str>, refused: bool, c: LogCall) {
    && (line.Some? <==> Due(c) && !refused)
    && (line.Some? && Proper(c) ==> Carries(line.value, c))
    && (line.Some? && c.d.Fits() && ValidEnv(c.env) ==> Heads(line.value, c))
  }

  lemma ExpectedIsRight(line: Option<Str>, refused: bool, c: LogCall)
    requires line == if refused then None else Expected(c)
    ensures RightLine(line, refused, c)
  {
    if line.Some? && Proper(c) {
      CallCarries(c);
    }
    if line.Some? && c.d.Fits() && ValidEnv(c.env) {
      CallHeads(c);
    }
  }

  predicate AllRight(lines: seq<Option<Str>>, refused: seq<bool>, calls: seq<LogCall>) {
    |lines| == |refused| <= |calls| && forall k | 0 <= k < |lines| :: RightLine(lines[k], refused[k], calls[k])
  }

  lemma RunIsRight(lines: seq<Option<Str>>, refused: seq<bool>, calls: seq<LogCall>)
    requires AsExpected(lines, refused, calls)
    ensures AllRight(lines, refused, calls)
  {
    forall k | 0 <= k < |lines| ensures RightLine(lines[k], refused[k], calls[k]) {
      ExpectedIsRight(lines[k], refused[k], calls[k]);
    }
  }

  /** No residue: over any run of calls by one thread, allocations being refused anywhere, exactly the lines go out that
      the calls themselves determine, but for those of calls in which an allocation was refused, although entries,
      builders and buffers are used again and again. The slots still taken are those of failed formats. */
  method AnyRun(thread: ThreadEntries, heap: Heap, pool: Pool, calls: seq<LogCall>)
    returns (lines: seq<Option<Str>>, lost: set<nat>, ghost refused: seq<bool>)
    requires thread.Sound() && pool.Valid() && pool.owner.Keys <= heap.live && Shared(pool.live, {}, {})
    requires forall i | 0 <= i < |calls| && !calls[i].FreeThread? :: calls[i].d.Fits()
    modifies thread.log, thread.trace, pool, pool.structs, pool.owner.Keys, heap
    ensures thread.Sound() && pool.Went(heap)
    ensures |lines| == |calls| && AsExpected(lines, refused, calls) && AllRight(lines, refused, calls)
    ensures heap.refusals == old(heap.refusals) + Slab.Count(refused)
    ensures Shared(pool.live, {}, lost) && |lost| <= Slab.Count(refused)
  {
    lines, refused, lost := [], [], {};
    for i := 0 to |calls|
      invariant thread.Sound() && pool.Went(heap)
      invariant |lines| == i && AsExpected(lines, refused, calls)
      invariant heap.refusals == old(heap.refusals) + Slab.Count(refused)
      invariant Shared(pool.live, {}, lost) && |lost| <= Slab.Count(refused)
    {
      ghost var before := heap.refusals;
      var line;
      line, lost := AnyCall(thread, heap, pool, calls[i], lost);
      ghost var failed := heap.refusals > before;
      Slab.CountSnoc(refused, failed);
      OneLineMore(lines, line, refused, failed, calls);
      lines, refused := lines + [line], refused + [failed];
    }
    RunIsRight(lines, refused, calls);
  }
}

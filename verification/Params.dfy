/** The param printer and parser of src/param.c. */
module Params {
  import opened Allocation
  import opened Bytes
  import opened Records
  import opened Memory
  import opened Validate

  /** name="value" */
  function Printed(p: ParamRec): Str {
    p.name + [EQUALS, QUOTE] + p.value + [QUOTE]
  }

  predicate IsParam(p: ParamRec) {
    ValidParamName(p.name) && NoNul(p.value)
  }

  function StringSize(p: ParamRec): nat {
    |p.name| + |p.value| + 4
  }

  /** `locked_param_into_buffer` at offset `at`: writes the text and a terminator, and nothing else. */
  method ParamIntoBuffer(p: ParamRec, buffer: array<byte>, at: nat) returns (written: nat)
    requires at + StringSize(p) <= buffer.Length
    modifies buffer
    ensures written == StringSize(p)
    ensures buffer[..at + written] == old(buffer[..at]) + Printed(p) + [NUL]
    ensures forall k | at + written <= k < buffer.Length :: buffer[k] == old(buffer[k])
  {
    MemCopy(buffer, at, p.name);
    written := |p.name|;
    MemCopy(buffer, at + written, [EQUALS, QUOTE]);
    written := written + 2;
    MemCopy(buffer, at + written, p.value);
    written := written + |p.value|;
    MemCopy(buffer, at + written, [QUOTE, NUL]);
    written := written + 2;
    assert [QUOTE, NUL] == [QUOTE] + [NUL];
  }

  /** `stumpless_param_into_string`: the size, and the text if the caller's buffer can take it. */
  method ParamIntoString(p: ParamRec, str: array<byte>, maxSize: nat) returns (size: nat)
    requires maxSize <= str.Length
    modifies str
    ensures size == StringSize(p)
    ensures size > maxSize ==> str[..] == old(str[..])
    ensures size <= maxSize ==> str[..size] == Printed(p) + [NUL] && str[size..] == old(str[size..])
  {
    size := StringSize(p);
    if size > maxSize {
      return;
    }
    size := ParamIntoBuffer(p, str, 0);
  }

  datatype ParseResult = Parsed(param: ParamRec) | TooBig | Invalid | NoMemory

  /** Where the name ends, or why it has no end: the checks of the parsing loop in their order. */
  datatype NameScan = NameEnds(at: nat) | NameTooBig | NameInvalid

  function ScanName(s: Str, i: nat): (r: NameScan)
    requires i <= |s|
    ensures r.NameEnds? ==> i <= r.at < |s| && s[r.at] == EQUALS
    decreases |s| - i
  {
    if i < |s| && s[i] == EQUALS then NameEnds(i)
    else if i >= MAX_PARAM_NAME_LENGTH then NameTooBig
    else if i == |s| || !IsNameChar(s[i]) then NameInvalid
    else ScanName(s, i + 1)
  }

  function Parse(s: Str): ParseResult {
    match ScanName(s, 0)
    case NameTooBig => TooBig
    case NameInvalid => Invalid
    case NameEnds(i) =>
      if |s| < i + 3 || s[i + 1] != QUOTE || s[|s| - 1] != QUOTE then Invalid
      else Parsed(ParamRec(s[..i], s[i + 2..|s| - 1]))
  }

  /** The parsing loop and the checks behind it, on memory that ends with the terminator: they never read past it. */
  method ParseString(mem: Str) returns (r: ParseResult)
    requires IsCString(mem)
    ensures r == Parse(mem[..|mem| - 1])
  {
    ghost var s := mem[..|mem| - 1];
    var name, i := [], 0;
    while mem[i] != EQUALS
      invariant i <= |s| && i <= MAX_PARAM_NAME_LENGTH
      invariant name == mem[..i]
      invariant ScanName(s, 0) == ScanName(s, i)
      decreases |mem| - i
    {
      if i >= MAX_PARAM_NAME_LENGTH {
        return TooBig;
      }
      if mem[i] < 33 || mem[i] > 126 || mem[i] == RBRACKET || mem[i] == QUOTE {
        return Invalid;
      }
      name := name + [mem[i]];
      i := i + 1;
    }
    if mem[i + 1] != QUOTE {
      return Invalid;
    }
    var valueLen := StrLen(mem, i + 2);
    if valueLen == 0 || mem[i + 2 + valueLen - 1] != QUOTE {
      return Invalid;
    }
    var value := mem[i + 2..i + 2 + valueLen - 1];
    r := Parsed(ParamRec(name, value));
  }

  /** `stumpless_new_param_from_string`: the param and its mutex are allocated first, the value last. It lacks memory if
      and only if one of them is refused. */
  method NewParamFromString(heap: Heap, mem: Str) returns (r: ParseResult)
    requires IsCString(mem)
    modifies heap`refusals
    ensures heap.refusals == old(heap.refusals) + if r == NoMemory then 1 else 0
    ensures r == NoMemory || r == Parse(mem[..|mem| - 1])
  {
    var ok := heap.Granted();
    if !ok { return NoMemory; }
    ok := heap.Granted();
    if !ok { return NoMemory; }
    r := ParseString(mem);
    if r.Parsed? {
      ok := heap.Granted();
      if !ok { return NoMemory; }
    }
  }

  /** `strlen` of the text that starts at `from`. */
  method StrLen(mem: Str, from: nat) returns (length: nat)
    requires IsCString(mem) && from < |mem|
    ensures from + length == |mem| - 1
  {
    assert forall k | 0 <= k < |mem| - 1 :: mem[k] == mem[..|mem| - 1][k];
    length := 0;
    while mem[from + length] != NUL
      invariant from + length <= |mem| - 1
      decreases |mem| - from - length
    {
      length := length + 1;
    }
  }

  lemma {:induction false} ScanNameAt(s: Str, i: nat, k: nat)
    requires i <= k < |s| && k <= MAX_PARAM_NAME_LENGTH && s[k] == EQUALS
    requires forall j | i <= j < k :: IsNameChar(s[j])
    ensures ScanName(s, i) == NameEnds(k)
    decreases k - i
  {
    if i < k {
      ScanNameAt(s, i + 1, k);
    }
  }

  lemma {:induction false} ScanNameValid(s: Str, i: nat)
    requires i <= |s| && i <= MAX_PARAM_NAME_LENGTH
    ensures ScanName(s, i).NameEnds? ==>
              && ScanName(s, i).at <= MAX_PARAM_NAME_LENGTH
              && forall j | i <= j < ScanName(s, i).at :: IsNameChar(s[j])
    ensures ScanName(s, i).NameTooBig? ==>
              |s| >= MAX_PARAM_NAME_LENGTH && forall j | i <= j < MAX_PARAM_NAME_LENGTH :: IsNameChar(s[j])
    decreases |s| - i
  {
    if i < |s| && s[i] != EQUALS && i < MAX_PARAM_NAME_LENGTH && IsNameChar(s[i]) {
      ScanNameValid(s, i + 1);
    }
  }

  /** Parsing a printed param gives it back. */
  lemma ParsePrinted(p: ParamRec)
    requires IsParam(p)
    ensures Parse(Printed(p)) == Parsed(p)
  {
    var s, n := Printed(p), |p.name|;
    assert forall j | 0 <= j < n :: s[j] == p.name[j];
    ScanNameAt(s, 0, n);
    assert s[..n] == p.name && s[n + 2..|s| - 1] == p.value;
  }

  /** Printing a parsed param gives back the string; and what parses is exactly what prints. */
  lemma PrintParsed(s: Str)
    requires NoNul(s)
    ensures Parse(s).Parsed? ==> IsParam(Parse(s).param) && Printed(Parse(s).param) == s
    ensures Parse(s).Parsed? <==> exists p :: IsParam(p) && Printed(p) == s
  {
    ScanNameValid(s, 0);
    if Parse(s).Parsed? {
      var i := ScanName(s, 0).at;
      var p := Parse(s).param;
      assert s == s[..i] + [s[i], s[i + 1]] + s[i + 2..|s| - 1] + [s[|s| - 1]];
      assert NoNul(p.value) by {
        assert forall k | 0 <= k < |p.value| :: p.value[k] == s[i + 2 + k];
      }
      assert IsParam(p) && Printed(p) == s;
    }
    if exists p :: IsParam(p) && Printed(p) == s {
      var p :| IsParam(p) && Printed(p) == s;
      ParsePrinted(p);
    }
  }

  /** The length error means just this: 32 name characters with no '=' after them. */
  lemma TooBigExact(s: Str)
    ensures Parse(s) == TooBig <==>
              && |s| >= MAX_PARAM_NAME_LENGTH && NameChars(s[..MAX_PARAM_NAME_LENGTH])
              && (|s| == MAX_PARAM_NAME_LENGTH || s[MAX_PARAM_NAME_LENGTH] != EQUALS)
  {
    ScanNameValid(s, 0);
    if |s| >= MAX_PARAM_NAME_LENGTH && NameChars(s[..MAX_PARAM_NAME_LENGTH]) {
      ScanRun(s, 0);
    }
  }

  lemma {:induction false} ScanRun(s: Str, i: nat)
    requires i <= MAX_PARAM_NAME_LENGTH <= |s| && NameChars(s[..MAX_PARAM_NAME_LENGTH])
    ensures ScanName(s, i) == ScanName(s, MAX_PARAM_NAME_LENGTH)
    decreases MAX_PARAM_NAME_LENGTH - i
  {
    if i < MAX_PARAM_NAME_LENGTH {
      assert IsNameChar(s[..MAX_PARAM_NAME_LENGTH][i]);
      ScanRun(s, i + 1);
    }
  }
}

/** Bytes and C strings, as the library's `char` buffers hold them. */
module Bytes {
  type byte = b: int | 0 <= b < 256

  type Str = seq<byte>

  datatype Option<T> = None | Some(value: T)

  const NUL: byte := 0
  const NEWLINE: byte := 10
  const SPACE: byte := 32
  const QUOTE: byte := 34
  const COMMA: byte := 44
  const DASH: byte := 45
  const ZERO: byte := 48
  const LESS: byte := 60
  const EQUALS: byte := 61
  const GREATER: byte := 62
  const LBRACKET: byte := 91
  const BACKSLASH: byte := 92
  const RBRACKET: byte := 93

  /** The bytes of a string literal. */
  function Ascii(s: string): (r: Str)
    ensures |r| == |s|
  {
    seq(|s|, i requires 0 <= i < |s| => if s[i] < 128 as char then s[i] as int else 0)
  }

  /** Text that fits a C string: no byte of it is the terminator. */
  predicate NoNul(s: Str) {
    forall i | 0 <= i < |s| :: s[i] != NUL
  }

  /** The memory of a C string: the text and its terminator, and not a byte more. */
  predicate IsCString(mem: Str) {
    |mem| > 0 && mem[|mem| - 1] == NUL && NoNul(mem[..|mem| - 1])
  }

  type CText = s: Str | NoNul(s) witness []

  /** What lies behind the text in a fixed char array that has room for a terminator. */
  type Tail = t: Str | t != [] witness [NUL]

  /** What a reader of C strings finds at the start of a buffer; None if it runs off the end. */
  function CString(buffer: Str): (s: Option<Str>)
    ensures s.None? <==> NoNul(buffer)
    ensures s.Some? ==> NoNul(s.value) && s.value <= buffer && |s.value| < |buffer| && buffer[|s.value|] == NUL
  {
    if buffer == [] then None
    else if buffer[0] == NUL then Some([])
    else match CString(buffer[1..])
      case None => None
      case Some(s) => Some([buffer[0]] + s)
  }

  /** What a C string read of a name and its tail can give: running off the end, it reads on. */
  ghost predicate Reads(found: Str, name: Str, tail: Str) {
    match CString(name + tail)
    case Some(s) => found == s
    case None => name + tail <= found
  }

  lemma {:induction false} CStringAt(name: Str, tail: Str)
    requires NoNul(name) && tail != [] && tail[0] == NUL
    ensures CString(name + tail) == Some(name)
  {
    if name == [] {
      assert name + tail == tail;
    } else {
      assert (name + tail)[0] == name[0] && (name + tail)[1..] == name[1..] + tail;
      CStringAt(name[1..], tail);
      assert [name[0]] + name[1..] == name;
    }
  }

  /** A name is read as it is if and only if the byte right behind it is the terminator. */
  lemma ReadsTheName(found: Str, name: CText, tail: Tail)
    requires Reads(found, name, tail)
    ensures found == name <==> tail[0] == NUL
  {
    if tail[0] == NUL {
      CStringAt(name, tail);
    } else {
      assert (name + tail)[|name|] == tail[0];
    }
  }

  lemma Regroup(a: Str, b: Str, c: Str)
    ensures a + b + c == a + (b + c)
  {
  }

  /** Memory nobody has written to. */
  method Garbage(n: nat) returns (g: Str)
    ensures |g| == n
  {
    assert |seq(n, _ => NUL)| == n;
    g :| |g| == n;
  }
}

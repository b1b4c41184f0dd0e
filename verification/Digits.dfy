/** Base-ten rendering of a C `int`, shared by the string builder and the trace calls. */
module Digits {
  import opened Bytes

  const MAX_INT_SIZE := 50

  type int32 = i: int | -0x8000_0000 <= i < 0x8000_0000

  /** C's division and remainder by ten, which truncate toward zero. */
  function Div10(i: int): int {
    if i >= 0 then i / 10 else -(-i / 10)
  }

  function Mod10(i: int): int {
    if i >= 0 then i % 10 else -(-i % 10)
  }

  /** The bytes `( i % 10 ) + 48`, most significant first; none for zero. */
  function DigitBytes(i: int): Str
    decreases if i >= 0 then i else -i
  {
    if i == 0 then [] else DigitBytes(Div10(i)) + [Mod10(i) + 48]
  }

  function IntBytes(i: int): Str {
    if i == 0 then [ZERO] else DigitBytes(i)
  }

  predicate IsDigit(b: byte) {
    48 <= b <= 57
  }

  predicate AllDigits(s: Str) {
    forall i | 0 <= i < |s| :: IsDigit(s[i])
  }

  /** The number a run of digits stands for. */
  function Value(s: Str): nat
    requires AllDigits(s)
  {
    if s == [] then 0 else 10 * Value(s[..|s| - 1]) + (s[|s| - 1] as int - 48)
  }

  function Pow10(k: nat): nat {
    if k == 0 then 1 else 10 * Pow10(k - 1)
  }

  /** For n >= 0 the bytes are the decimal digits of n, with no leading zero. */
  lemma {:induction false} DigitBytesDecimal(n: nat)
    ensures AllDigits(DigitBytes(n)) && Value(DigitBytes(n)) == n
    ensures n > 0 ==> |DigitBytes(n)| > 0 && DigitBytes(n)[0] != ZERO
  {
    if n > 0 {
      DigitBytesDecimal(n / 10);
      var front, last: byte := DigitBytes(n / 10), n % 10 + 48;
      assert DigitBytes(n) == front + [last] && (front + [last])[..|front|] == front;
    }
  }

  /** n takes at most k digits exactly when it is below ten to the k. */
  lemma {:induction false} DigitCount(n: nat, k: nat)
    ensures |DigitBytes(n)| <= k <==> n < Pow10(k)
    decreases k
  {
    if n > 0 && k > 0 {
      DigitCount(n / 10, k - 1);
    } else if n > 0 {
      assert |DigitBytes(n)| > 0;
    } else {
      Pow10Positive(k);
    }
  }

  lemma {:induction false} Pow10Positive(k: nat)
    ensures Pow10(k) > 0
  {
    if k > 0 {
      Pow10Positive(k - 1);
    }
  }

  /** A negative number gets no sign and no decimal digits either: each byte is its mirror image in '0'. */
  lemma {:induction false} NegativeMirrors(n: int)
    requires n >= 0
    ensures |DigitBytes(-n)| == |DigitBytes(n)|
    ensures forall k | 0 <= k < |DigitBytes(n)| :: DigitBytes(-n)[k] as int == 96 - DigitBytes(n)[k] as int
  {
    if n > 0 {
      NegativeMirrors(n / 10);
    }
  }

  /** Ten bytes are enough for any int, well under the fifty the callers set aside. */
  lemma IntFits(i: int32)
    ensures |DigitBytes(i)| <= 10
  {
    assert Pow10(10) == 10_000_000_000;
    var n: int := if i < 0 then -(i as int) else i;
    NegativeMirrors(n);
    DigitCount(n, 10);
  }

  /** Distinct non-negative numbers never render alike. */
  lemma IntBytesInjective(m: nat, n: nat)
    requires IntBytes(m) == IntBytes(n)
    ensures m == n
  {
    DigitBytesDecimal(m);
    DigitBytesDecimal(n);
  }

  /** The trace calls' digit loop: writes from the end of a fixed buffer towards its start. */
  method DigitsBackwards(line: int32, digits: array<byte>) returns (start: nat)
    requires digits.Length == MAX_INT_SIZE
    modifies digits
    ensures start < digits.Length && digits[start..] == IntBytes(line) + [NUL]
  {
    IntFits(line);
    var i: int := line;
    digits[digits.Length - 1] := NUL;
    start := digits.Length - 1;
    if i == 0 {
      start := start - 1;
      digits[start] := ZERO;
    } else {
      while i != 0
        invariant start <= digits.Length - 1
        invariant |DigitBytes(i)| <= start - 39
        invariant DigitBytes(i) + digits[start..] == DigitBytes(line) + [NUL]
        decreases if i >= 0 then i else -i
      {
        ghost var tail := digits[start..];
        start := start - 1;
        digits[start] := Mod10(i) + 48;
        assert digits[start..] == [Mod10(i) + 48] + tail;
        assert DigitBytes(i) + tail == DigitBytes(Div10(i)) + ([Mod10(i) + 48] + tail);
        i := Div10(i);
      }
    }
  }

  /** Every byte of a rendered int is a digit or, for a negative one, in the mirrored range below. */
  lemma IntBytesRange(i: int32)
    ensures forall k | 0 <= k < |IntBytes(i)| :: 39 <= IntBytes(i)[k] <= 57
  {
    var n: nat := if i >= 0 then i else -(i as int);
    DigitBytesDecimal(n);
    NegativeMirrors(n);
    forall k | 0 <= k < |DigitBytes(i)| ensures 39 <= DigitBytes(i)[k] <= 57 {
      assert IsDigit(DigitBytes(n)[k]);
    }
  }
}

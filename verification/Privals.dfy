/** Privals, facilities and severities, after src/prival.c, src/facility.c and src/severity.c. */
module Privals {
  /** The k-th bit of a two's complement number, of any width. */
  predicate Bit(x: int, k: nat)
    decreases k
  {
    if k == 0 then x % 2 == 1 else Bit(x / 2, k - 1)
  }

  function Size(x: int): nat {
    if x >= 0 then x else -x - 1
  }

  /** C's `|`. */
  function Or(a: int, b: int): int
    decreases Size(a) + Size(b)
  {
    if Size(a) == 0 && Size(b) == 0 then (if a == b then a else -1)
    else 2 * Or(a / 2, b / 2) + if a % 2 == 1 || b % 2 == 1 then 1 else 0
  }

  /** It is the or of every bit, so it takes no more bits than its operands. */
  lemma {:induction false} OrBits(a: int, b: int, k: nat)
    ensures Bit(Or(a, b), k) <==> Bit(a, k) || Bit(b, k)
    decreases k
  {
    if k > 0 {
      OrBits(a / 2, b / 2, k - 1);
    }
  }

  function Pow2(n: nat): nat {
    if n == 0 then 1 else 2 * Pow2(n - 1)
  }

  lemma {:induction false} OrWithin(a: int, b: int, n: nat)
    requires 0 <= a + Pow2(n) < 2 * Pow2(n) && 0 <= b + Pow2(n) < 2 * Pow2(n)
    ensures 0 <= Or(a, b) + Pow2(n) < 2 * Pow2(n)
    decreases n
  {
    if n > 0 {
      OrWithin(a / 2, b / 2, n - 1);
    }
  }

  /** Numbers without a bit in common add up. */
  lemma {:induction false} OrAbove(high: int, low: nat, n: nat)
    requires low < Pow2(n)
    ensures Or(high * Pow2(n), low) == high * Pow2(n) + low
    decreases n
  {
    if n == 0 {
      OrZero(high);
    } else {
      assert high * Pow2(n) == 2 * (high * Pow2(n - 1));
      OrAbove(high, low / 2, n - 1);
    }
  }

  lemma {:induction false} OrZero(a: int)
    ensures Or(a, 0) == a
    decreases Size(a)
  {
    if Size(a) > 0 {
      OrZero(a / 2);
    }
  }

  /** `prival & 0xf8` and `prival & 0x7`. */
  function GetFacility(prival: int): int {
    prival % 256 / 8 * 8
  }

  function GetSeverity(prival: int): int {
    prival % 8
  }

  function GetPrival(facility: int, severity: int): int {
    Or(facility, severity)
  }

  /** The bits of a number put together from high and low ones. */
  lemma {:induction false} BitsOf(high: int, low: nat, n: nat, k: nat)
    requires low < Pow2(n)
    ensures Bit(high * Pow2(n) + low, k) <==> if k < n then Bit(low, k) else Bit(high, k - n)
    decreases n
  {
    if n > 0 {
      assert high * Pow2(n) == 2 * (high * Pow2(n - 1));
      if k > 0 {
        BitsOf(high, low / 2, n - 1, k - 1);
      }
    }
  }

  /** The two masks, bit by bit: a facility keeps the bits of 0xf8, a severity those of 7. */
  lemma MasksExactly(prival: int, k: nat)
    ensures Bit(GetFacility(prival), k) <==> 3 <= k < 8 && Bit(prival, k)
    ensures Bit(GetSeverity(prival), k) <==> k < 3 && Bit(prival, k)
  {
    assert Pow2(3) == 8 && Pow2(5) == 32;
    var high, low := prival / 8, prival % 8;
    BitsOf(high, low, 3, k);
    BitsOf(high / 32, high % 32, 5, if k < 3 then 0 else k - 3);
    BitsOf(high % 32, 0, 3, k);
    BitsOf(0, low, 3, k);
    BitsOf(0, high % 32, 5, if k < 3 then 0 else k - 3);
    ZeroBits(k);
    ZeroBits(if k < 3 then 0 else k - 3);
    ZeroBits(if k < 8 then 0 else k - 8);
    MiddleBits(prival);
  }

  lemma MiddleBits(prival: int)
    ensures prival % 256 / 8 == prival / 8 % 32
  {
    var high, low := prival / 256, prival % 256;
    assert prival == 8 * (32 * high + low / 8) + low % 8;
    assert prival / 8 == 32 * high + low / 8;
  }

  lemma {:induction false} ZeroBits(k: nat)
    ensures !Bit(0, k)
  {
    if k > 0 {
      ZeroBits(k - 1);
    }
  }

  /** A facility and a severity share no bit, so the or is the sum. */
  lemma OrIsSum(facility: int, severity: int)
    requires facility % 8 == 0 && 0 <= severity < 8
    ensures GetPrival(facility, severity) == facility + severity
  {
    var high := facility / 8;
    assert Pow2(3) == 8 && high * Pow2(3) == facility;
    OrAbove(high, severity, 3);
  }

  lemma LowByte(prival: int)
    ensures GetFacility(prival) + GetSeverity(prival) == prival % 256
    ensures GetFacility(prival) % 8 == 0 && 0 <= GetSeverity(prival) < 8
  {
    var high, low := prival / 256, prival % 256;
    assert prival == 8 * (32 * high + low / 8) + low % 8;
    assert prival % 8 == low % 8;
  }

  /** Splitting a prival and joining it again keeps its low byte, so exactly the privals of one byte survive. */
  lemma PrivalSurvives(prival: int)
    ensures GetPrival(GetFacility(prival), GetSeverity(prival)) == prival % 256
    ensures GetPrival(GetFacility(prival), GetSeverity(prival)) == prival <==> 0 <= prival < 256
  {
    var facility, severity := GetFacility(prival), GetSeverity(prival);
    LowByte(prival);
    OrIsSum(facility, severity);
  }
}

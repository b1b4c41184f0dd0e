/** The UTF-8 automaton of src/validate.c, and the exact language it accepts. The source's masks on a byte c
    are written with division and remainder: `c & 0xe0` tests c / 32, `c & 0x3f` keeps c % 64, and so on. */
module Utf8 {
  import opened Bytes

  /** What the automaton remembers: the state, and the payload bits of the bytes of the current character. */
  datatype State = Lead | Two(bytes: Str) | Three(bytes: Str) | Four(bytes: Str)

  predicate IsCont(c: byte) {
    c / 64 == 2
  }

  /** One byte; None when validation fails. */
  function Step(st: State, c: byte): Option<State> {
    match st
    case Lead =>
      if c / 32 == 6 then Some(Two([c % 32]))
      else if c / 16 == 14 then Some(Three([c % 16]))
      else if c / 8 == 30 then Some(Four([c % 8]))
      else if c >= 128 then None
      else Some(Lead)
    case Two(b) =>
      if !IsCont(c) || (|b| > 0 && b[0] / 2 == 0) then None else Some(Lead)
    case Three(b) =>
      var b' := b + [c % 64];
      if !IsCont(c) then None
      else if |b'| != 3 then Some(Three(b'))
      else if b'[0] == 0 && b'[1] / 32 == 0 then None
      else Some(Lead)
    case Four(b) =>
      var b' := b + [c % 64];
      if !IsCont(c) then None
      else if |b'| != 4 then Some(Four(b'))
      else if b'[0] == 0 && b'[1] / 16 == 0 then None
      else Some(Lead)
  }

  function Scan(st: State, s: Str): Option<State>
    decreases |s|
  {
    if s == [] then Some(st)
    else match Step(st, s[0])
      case None => None
      case Some(t) => Scan(t, s[1..])
  }

  const BOM: Str := [0xef, 0xbb, 0xbf]

  function StripBom(s: Str): Str {
    if |s| >= 3 && s[0] == BOM[0] && s[1] == BOM[1] && s[2] == BOM[2] then s[3..] else s
  }

  predicate Accepts(s: Str) {
    Scan(Lead, StripBom(s)).Some?
  }

  datatype Mode = LeadChar | TwoChar | ThreeChar | FourChar

  /** Plain ASCII is accepted. */
  lemma {:induction false} AsciiAccepted(s: Str)
    requires forall i | 0 <= i < |s| :: s[i] < 128
    ensures Scan(Lead, s) == Some(Lead) && StripBom(s) == s && Accepts(s)
  {
    if s != [] {
      AsciiAccepted(s[1..]);
    }
  }

  /** The automaton state that the loop's variables stand for. */
  function Abstract(mode: Mode, bytes: Str): State {
    match mode
    case LeadChar => Lead
    case TwoChar => Two(bytes)
    case ThreeChar => Three(bytes)
    case FourChar => Four(bytes)
  }

  predicate Consistent(mode: Mode, charCount: nat) {
    match mode
    case LeadChar => charCount <= 4
    case TwoChar => charCount == 1
    case ThreeChar => 1 <= charCount < 3
    case FourChar => 1 <= charCount < 4
  }

  /** The body of the loop: a switch on the current state. */
  method Feed(mode: Mode, charCount: nat, bytes: array<byte>, c: byte) returns (ok: bool, mode': Mode, charCount': nat)
    requires bytes.Length == 6 && Consistent(mode, charCount)
    modifies bytes
    ensures ok ==> Consistent(mode', charCount')
    ensures Step(Abstract(mode, old(bytes[..charCount])), c)
         == if ok then Some(Abstract(mode', bytes[..charCount'])) else None
  {
    ok, mode', charCount' := true, mode, charCount;
    match mode {
      case LeadChar =>
        if c / 32 == 6 {
          mode', charCount' := TwoChar, 1;
          bytes[0] := c % 32;
          assert bytes[..1] == [bytes[0]];
        } else if c / 16 == 14 {
          mode', charCount' := ThreeChar, 1;
          bytes[0] := c % 16;
          assert bytes[..1] == [bytes[0]];
        } else if c / 8 == 30 {
          mode', charCount' := FourChar, 1;
          bytes[0] := c % 8;
          assert bytes[..1] == [bytes[0]];
        } else {
          ok := c < 128;
        }
      case TwoChar =>
        ok := IsCont(c) && bytes[0] / 2 != 0;
        mode' := LeadChar;
      case ThreeChar =>
        if !IsCont(c) {
          return false, mode, charCount;
        }
        bytes[charCount] := c % 64;
        charCount' := charCount + 1;
        assert bytes[..charCount'] == old(bytes[..charCount]) + [c % 64];
        if charCount' == 3 {
          ok := !(bytes[0] == 0 && bytes[1] / 32 == 0);
          mode' := LeadChar;
        }
      case FourChar =>
        if !IsCont(c) {
          return false, mode, charCount;
        }
        bytes[charCount] := c % 64;
        charCount' := charCount + 1;
        assert bytes[..charCount'] == old(bytes[..charCount]) + [c % 64];
        if charCount' == 4 {
          ok := !(bytes[0] == 0 && bytes[1] / 16 == 0);
          mode' := LeadChar;
        }
    }
  }

  /** The byte loop over `current_state`, `char_count` and `bytes`. There is no check at the end of input. */
  method ValidateUtf8Compliance(str: Str) returns (ok: bool)
    ensures ok == Accepts(str)
  {
    var s := StripBom(str);
    var mode, charCount := LeadChar, 0;
    var bytes := new byte[6];
    for i := 0 to |s|
      invariant 0 <= charCount <= 4 && Consistent(mode, charCount)
      invariant Scan(Lead, s) == Scan(Abstract(mode, bytes[..charCount]), s[i..])
    {
      ok, mode, charCount := Feed(mode, charCount, bytes, s[i]);
      if !ok {
        return false;
      }
    }
    ok := true;
  }

  // ----- the language

  /** How many bytes the character led by c takes; 0 if c leads none. */
  function Width(c: byte): nat {
    if c < 128 then 1
    else if c / 32 == 6 then 2
    else if c / 16 == 14 then 3
    else if c / 8 == 30 then 4
    else 0
  }

  predicate Conts(s: Str, from: nat) {
    forall i | from <= i < |s| :: IsCont(s[i])
  }

  /** A complete character in its shortest form. Surrogates and leads up to F7 are let through. */
  predicate IsChar(s: Str) {
    && s != [] && |s| == Width(s[0]) && Conts(s, 1)
    && (|s| == 2 ==> s[0] >= 0xc2)
    && (|s| == 3 && s[0] == 0xe0 ==> s[1] >= 0xa0)
    && (|s| == 4 && s[0] == 0xf0 ==> s[1] >= 0x90)
  }

  /** A character cut short: a lead, of either form, and too few continuations. */
  predicate IsTail(s: Str) {
    s == [] || (|s| < Width(s[0]) && Conts(s, 1))
  }

  function Flatten(chars: seq<Str>): Str {
    if chars == [] then [] else chars[0] + Flatten(chars[1..])
  }

  predicate AllChars(chars: seq<Str>) {
    forall i | 0 <= i < |chars| :: IsChar(chars[i])
  }

  /** Reading on from inside a character: state `st` has read `k` bytes of `s`. */
  lemma ScanAt(st: State, s: Str, k: nat)
    requires k < |s|
    ensures Scan(st, s[k..]) == match Step(st, s[k]) case None => None case Some(t) => Scan(t, s[k + 1..])
  {
    assert s[k..][0] == s[k] && s[k..][1..] == s[k + 1..];
  }

  lemma ScanThree(s: Str)
    requires s != [] && Width(s[0]) == 3
    ensures if |s| < 3 then Scan(Lead, s) != Some(Lead) && (Scan(Lead, s).Some? <==> Conts(s, 1))
            else Scan(Lead, s) == if IsChar(s[..3]) then Scan(Lead, s[3..]) else None
  {
    var b0 := s[0] % 16;
    assert Scan(Lead, s) == Scan(Three([b0]), s[1..]);
    if |s| >= 2 {
      ScanAt(Three([b0]), s, 1);
      assert [b0] + [s[1] % 64] == [b0, s[1] % 64];
    }
    if |s| >= 3 {
      ScanAt(Three([b0, s[1] % 64]), s, 2);
      ThreeBytes(s[..3]);
    }
  }

  lemma ThreeBytes(t: Str)
    requires |t| == 3 && Width(t[0]) == 3
    ensures IsChar(t) <==> IsCont(t[1]) && IsCont(t[2]) && !(t[0] % 16 == 0 && t[1] % 64 / 32 == 0)
  {
    assert Conts(t, 1) <==> IsCont(t[1]) && IsCont(t[2]);
    assert IsCont(t[1]) ==> (t[0] % 16 == 0 && t[1] % 64 / 32 == 0 <==> t[0] == 0xe0 && t[1] < 0xa0);
  }

  lemma ScanFour(s: Str)
    requires s != [] && Width(s[0]) == 4
    ensures if |s| < 4 then Scan(Lead, s) != Some(Lead) && (Scan(Lead, s).Some? <==> Conts(s, 1))
            else Scan(Lead, s) == if IsChar(s[..4]) then Scan(Lead, s[4..]) else None
  {
    var b0 := s[0] % 8;
    assert Scan(Lead, s) == Scan(Four([b0]), s[1..]);
    if |s| >= 2 {
      ScanAt(Four([b0]), s, 1);
      assert [b0] + [s[1] % 64] == [b0, s[1] % 64];
    }
    if |s| >= 3 {
      ScanAt(Four([b0, s[1] % 64]), s, 2);
      assert [b0, s[1] % 64] + [s[2] % 64] == [b0, s[1] % 64, s[2] % 64];
    }
    if |s| >= 4 {
      ScanAt(Four([b0, s[1] % 64, s[2] % 64]), s, 3);
      FourBytes(s[..4]);
    }
  }

  /** The automaton's test on a character of four bytes is the one on their values. */
  lemma FourBytes(t: Str)
    requires |t| == 4 && Width(t[0]) == 4
    ensures IsChar(t) <==> && IsCont(t[1]) && IsCont(t[2]) && IsCont(t[3])
                           && !(t[0] % 8 == 0 && t[1] % 64 / 16 == 0)
  {
    assert Conts(t, 1) <==> IsCont(t[1]) && IsCont(t[2]) && IsCont(t[3]);
    assert IsCont(t[1]) ==> (t[0] % 8 == 0 && t[1] % 64 / 16 == 0 <==> t[0] == 0xf0 && t[1] < 0x90);
  }

  lemma ScanTwo(s: Str)
    requires s != [] && Width(s[0]) == 2
    ensures if |s| < 2 then Scan(Lead, s) != Some(Lead) && (Scan(Lead, s).Some? <==> Conts(s, 1))
            else Scan(Lead, s) == if IsChar(s[..2]) then Scan(Lead, s[2..]) else None
  {
    var b0 := s[0] % 32;
    assert Scan(Lead, s) == Scan(Two([b0]), s[1..]);
    if |s| >= 2 {
      ScanAt(Two([b0]), s, 1);
      assert Conts(s[..2], 1) <==> IsCont(s[1]);
      assert b0 / 2 == 0 <==> s[0] < 0xc2;
    }
  }

  /** A scan from the lead state reads a whole character, or runs out inside one. */
  lemma ScanOneChar(s: Str)
    requires s != []
    ensures var w := Width(s[0]);
            if w == 0 then Scan(Lead, s) == None
            else if |s| < w then Scan(Lead, s) != Some(Lead) && (Scan(Lead, s).Some? <==> Conts(s, 1))
            else Scan(Lead, s) == if IsChar(s[..w]) then Scan(Lead, s[w..]) else None
  {
    var w := Width(s[0]);
    if w == 2 {
      ScanTwo(s);
    } else if w == 3 {
      ScanThree(s);
    } else if w == 4 {
      ScanFour(s);
    }
  }

  lemma FlattenCons(first: Str, rest: seq<Str>, tail: Str)
    ensures Flatten([first] + rest) + tail == first + (Flatten(rest) + tail)
  {
    assert ([first] + rest)[1..] == rest;
  }

  /** What is accepted splits into characters and one tail; the scan ends in the lead state only without a tail. */
  lemma {:induction false} SplitAccepted(s: Str) returns (chars: seq<Str>, tail: Str)
    requires Scan(Lead, s).Some?
    ensures AllChars(chars) && IsTail(tail) && s == Flatten(chars) + tail
    ensures Scan(Lead, s) == Some(Lead) ==> tail == []
    decreases |s|
  {
    chars, tail := [], [];
    if s != [] {
      ScanOneChar(s);
      var w := Width(s[0]);
      if |s| < w {
        tail := s;
      } else {
        var rest;
        rest, tail := SplitAccepted(s[w..]);
        chars := [s[..w]] + rest;
        FlattenCons(s[..w], rest, tail);
        assert s == s[..w] + s[w..];
      }
    }
  }

  /** Characters and one tail are accepted. */
  lemma {:induction false} AcceptSplit(chars: seq<Str>, tail: Str)
    requires AllChars(chars) && IsTail(tail)
    ensures Scan(Lead, Flatten(chars) + tail).Some?
    ensures Scan(Lead, Flatten(chars) + tail) == Some(Lead) <==> tail == []
    decreases |chars|
  {
    var s := Flatten(chars) + tail;
    if chars == [] {
      assert s == tail;
      if tail != [] {
        ScanOneChar(tail);
      }
    } else {
      var first, rest := chars[0], Flatten(chars[1..]) + tail;
      assert s == first + rest && s[..|first|] == first && s[|first|..] == rest;
      ScanOneChar(s);
      AcceptSplit(chars[1..], tail);
    }
  }

  ghost predicate InLanguage(s: Str) {
    exists chars: seq<Str>, tail: Str :: AllChars(chars) && IsTail(tail) && s == Flatten(chars) + tail
  }

  ghost predicate IsComplete(s: Str) {
    exists chars: seq<Str> :: AllChars(chars) && s == Flatten(chars)
  }

  /** The exact language: shortest-form characters, then at most one unfinished one. */
  lemma LanguageExact(s: Str)
    ensures Accepts(s) <==> InLanguage(s)
    ensures Scan(Lead, s) == Some(Lead) <==> IsComplete(s)
  {
    BomNeutral(s);
    if Scan(Lead, s).Some? {
      var chars, tail := SplitAccepted(s);
      assert tail == [] ==> s == Flatten(chars);
    }
    if InLanguage(s) {
      var chars: seq<Str>, tail: Str :| AllChars(chars) && IsTail(tail) && s == Flatten(chars) + tail;
      AcceptSplit(chars, tail);
    }
    if IsComplete(s) {
      var chars: seq<Str> :| AllChars(chars) && s == Flatten(chars);
      AcceptSplit(chars, []);
      assert s == Flatten(chars) + [];
    }
  }

  /** Stripping the byte order mark never changes the verdict. */
  lemma BomNeutral(s: Str)
    ensures Scan(Lead, StripBom(s)) == Scan(Lead, s)
  {
    if StripBom(s) != s {
      ScanThree(s);
      assert IsChar(s[..3]);
    }
  }

  // ----- code points

  /** Six more payload bits. */
  function Join(high: nat, c: byte): nat {
    high * 64 + c % 64
  }

  /** The number the payload bits of a character spell. */
  function Decode(c: Str): nat
    requires IsChar(c)
  {
    match |c|
    case 1 => c[0]
    case 2 => Join(c[0] % 32, c[1])
    case 3 => Join(Join(c[0] % 16, c[1]), c[2])
    case _ => Join(Join(Join(c[0] % 8, c[1]), c[2]), c[3])
  }

  function Cont(p: nat): byte {
    0x80 + p % 64
  }

  /** The shortest encoding of a code point of at most 21 bits. */
  function Encode(p: nat): Str
    requires p < 0x20_0000
  {
    if p < 0x80 then [p]
    else if p < 0x800 then [0xc0 + p / 64, Cont(p)]
    else if p < 0x1_0000 then [0xe0 + p / 64 / 64, Cont(p / 64), Cont(p)]
    else [0xf0 + p / 64 / 64 / 64, Cont(p / 64 / 64), Cont(p / 64), Cont(p)]
  }

  lemma SplitJoin(high: nat, c: byte)
    ensures Join(high, c) / 64 == high
    ensures IsCont(c) ==> Cont(Join(high, c)) == c
  {
  }

  lemma JoinSplit(p: nat)
    ensures IsCont(Cont(p)) && Join(p / 64, Cont(p)) == p
  {
  }

  /** A shortest-form character is the encoding of its code point. */
  lemma EncodeDecode(c: Str)
    requires IsChar(c)
    ensures Decode(c) < 0x20_0000 && Encode(Decode(c)) == c
  {
    if |c| == 2 {
      SplitJoin(c[0] % 32, c[1]);
    } else if |c| == 3 {
      SplitJoin(c[0] % 16, c[1]);
      SplitJoin(Join(c[0] % 16, c[1]), c[2]);
    } else if |c| == 4 {
      var p1 := Join(c[0] % 8, c[1]);
      SplitJoin(c[0] % 8, c[1]);
      SplitJoin(p1, c[2]);
      SplitJoin(Join(p1, c[2]), c[3]);
      assert 16 <= p1 < 512;
    }
  }

  /** Every code point of at most 21 bits has an encoding, and decodes back. */
  lemma DecodeEncode(p: nat)
    requires p < 0x20_0000
    ensures IsChar(Encode(p)) && Decode(Encode(p)) == p
  {
    JoinSplit(p);
    JoinSplit(p / 64);
    JoinSplit(p / 64 / 64);
    if p >= 0x1_0000 {
      EncodeFour(p);
    }
  }

  lemma EncodeFour(p: nat)
    requires 0x1_0000 <= p < 0x20_0000
    ensures IsChar(Encode(p)) && Decode(Encode(p)) == p
  {
    var top := p / 64 / 64 / 64;
    assert top < 8 && (0xf0 + top) / 8 == 30 && (0xf0 + top) % 8 == top;
    JoinSplit(p);
    JoinSplit(p / 64);
    JoinSplit(p / 64 / 64);
    assert top == 0 ==> p / 64 / 64 >= 16;
  }

  function EncodeAll(ps: seq<nat>): Str
    requires forall i | 0 <= i < |ps| :: ps[i] < 0x20_0000
  {
    if ps == [] then [] else Encode(ps[0]) + EncodeAll(ps[1..])
  }

  function DecodeAll(chars: seq<Str>): seq<nat>
    requires AllChars(chars)
  {
    if chars == [] then [] else [Decode(chars[0])] + DecodeAll(chars[1..])
  }

  /** An accepted string that ends in the lead state decodes to code points that re-encode to the same bytes. */
  lemma {:induction false} ReencodesExactly(chars: seq<Str>)
    requires AllChars(chars)
    ensures forall i | 0 <= i < |DecodeAll(chars)| :: DecodeAll(chars)[i] < 0x20_0000
    ensures EncodeAll(DecodeAll(chars)) == Flatten(chars)
    decreases |chars|
  {
    if chars != [] {
      EncodeDecode(chars[0]);
      ReencodesExactly(chars[1..]);
      var rest := DecodeAll(chars[1..]);
      assert DecodeAll(chars) == [Decode(chars[0])] + rest && ([Decode(chars[0])] + rest)[1..] == rest;
    }
  }

  /** No string splits into characters in two ways. */
  lemma {:induction false} SplitUnique(a: seq<Str>, b: seq<Str>)
    requires AllChars(a) && AllChars(b) && Flatten(a) == Flatten(b)
    ensures a == b
    decreases |a|
  {
    if a == [] || b == [] {
      assert a == [] && b == [];
    } else {
      var s := Flatten(a);
      assert s[0] == a[0][0] == b[0][0];
      assert |a[0]| == |b[0]| && a[0] == s[..|a[0]|] == b[0];
      assert Flatten(a[1..]) == s[|a[0]|..] == Flatten(b[1..]);
      SplitUnique(a[1..], b[1..]);
      assert a == [a[0]] + a[1..] && b == [b[0]] + b[1..];
    }
  }

  // ----- against the standard

  predicate Within(c: byte, low: byte, high: byte) {
    low <= c <= high
  }

  /** UTF8-char, as section 4 of RFC 3629 spells it out. */
  predicate IsRfcChar(c: Str) {
    || (|c| == 1 && c[0] <= 0x7f)
    || (|c| == 2 && Within(c[0], 0xc2, 0xdf) && Within(c[1], 0x80, 0xbf))
    || (|c| == 3 && Within(c[2], 0x80, 0xbf)
        && (|| (c[0] == 0xe0 && Within(c[1], 0xa0, 0xbf))
            || (Within(c[0], 0xe1, 0xec) && Within(c[1], 0x80, 0xbf))
            || (c[0] == 0xed && Within(c[1], 0x80, 0x9f))
            || (Within(c[0], 0xee, 0xef) && Within(c[1], 0x80, 0xbf))))
    || (|c| == 4 && Within(c[2], 0x80, 0xbf) && Within(c[3], 0x80, 0xbf)
        && (|| (c[0] == 0xf0 && Within(c[1], 0x90, 0xbf))
            || (Within(c[0], 0xf1, 0xf3) && Within(c[1], 0x80, 0xbf))
            || (c[0] == 0xf4 && Within(c[1], 0x80, 0x8f))))
  }

  /** Not a surrogate, and no larger than the last code point. */
  predicate IsScalar(p: nat) {
    p <= 0x10_ffff && !(0xd800 <= p <= 0xdfff)
  }

  /** The automaton's characters are the standard's, plus surrogates and code points past 10FFFF. */
  lemma RfcCharExact(c: Str)
    ensures IsRfcChar(c) <==> IsChar(c) && IsScalar(Decode(c))
  {
    if |c| == 3 && IsChar(c) {
      var p := Join(c[0] % 16, c[1]);
      assert Decode(c) == p * 64 + c[2] % 64;
      assert 0xd800 <= Decode(c) <= 0xdfff <==> 0x360 <= p <= 0x37f;
      assert 0x360 <= p <= 0x37f <==> c[0] == 0xed && c[1] >= 0xa0;
    } else if |c| == 4 && IsChar(c) {
      var p := Join(c[0] % 8, c[1]);
      assert Decode(c) == (p * 64 + c[2] % 64) * 64 + c[3] % 64;
      assert Decode(c) <= 0x10_ffff <==> p <= 0x10f;
      assert p <= 0x10f <==> c[0] < 0xf4 || (c[0] == 0xf4 && c[1] < 0x90);
    }
  }

  ghost predicate IsRfcString(s: Str) {
    exists chars: seq<Str> :: (forall i | 0 <= i < |chars| :: IsRfcChar(chars[i])) && s == Flatten(chars)
  }

  /** Every string of RFC 3629 is accepted. */
  lemma RfcStringIsComplete(s: Str)
    requires IsRfcString(s)
    ensures Accepts(s)
  {
    var cs: seq<Str> :| (forall i | 0 <= i < |cs| :: IsRfcChar(cs[i])) && s == Flatten(cs);
    forall i | 0 <= i < |cs| ensures IsChar(cs[i]) {
      RfcCharExact(cs[i]);
    }
    assert AllChars(cs) && IsComplete(s);
    LanguageExact(s);
    BomNeutral(s);
  }

  /** Every string of RFC 3629 is accepted; an accepted complete string is one exactly when its code points
      are all scalar values. */
  lemma RfcStringsAccepted(s: Str, chars: seq<Str>)
    requires AllChars(chars)
    ensures IsRfcString(s) ==> Accepts(s)
    ensures IsRfcString(Flatten(chars)) <==> forall i | 0 <= i < |chars| :: IsScalar(Decode(chars[i]))
  {
    if IsRfcString(s) {
      RfcStringIsComplete(s);
    }
    forall i | 0 <= i < |chars| ensures IsRfcChar(chars[i]) <==> IsScalar(Decode(chars[i])) {
      RfcCharExact(chars[i]);
    }
    if IsRfcString(Flatten(chars)) {
      var cs: seq<Str> :| (forall i | 0 <= i < |cs| :: IsRfcChar(cs[i])) && Flatten(chars) == Flatten(cs);
      forall i | 0 <= i < |cs| ensures IsChar(cs[i]) {
        RfcCharExact(cs[i]);
      }
      SplitUnique(chars, cs);
    }
  }
}

/** The character and length checks of src/validate.c. */
module Validate {
  import opened Bytes
  import opened Records
  import Utf8

  predicate IsPrintable(c: byte) {
    33 <= c <= 126
  }

  predicate IsNameChar(c: byte) {
    IsPrintable(c) && c != EQUALS && c != RBRACKET && c != QUOTE
  }

  predicate Printable(s: Str) {
    forall i | 0 <= i < |s| :: IsPrintable(s[i])
  }

  predicate NameChars(s: Str) {
    forall i | 0 <= i < |s| :: IsNameChar(s[i])
  }

  predicate ValidParamName(s: Str) {
    |s| <= MAX_PARAM_NAME_LENGTH && NameChars(s)
  }

  predicate ValidElementName(s: Str) {
    |s| <= MAX_ELEMENT_NAME_LENGTH && NameChars(s)
  }

  predicate ValidAppName(s: Str) {
    |s| <= MAX_APP_NAME_LENGTH && Printable(s)
  }

  predicate ValidMsgid(s: Str) {
    |s| <= MAX_MSGID_LENGTH && Printable(s)
  }

  predicate ValidHostname(s: Str) {
    |s| <= MAX_HOSTNAME_LENGTH && Printable(s)
  }

  predicate ValidProcid(s: Str) {
    |s| <= MAX_PROCID_LENGTH && Printable(s)
  }

  predicate ValidValue(s: Str) {
    NoNul(s) && Utf8.Accepts(s)
  }

  method ValidateNameChars(str: Str) returns (ok: bool)
    ensures ok <==> NameChars(str)
  {
    for i := 0 to |str|
      invariant NameChars(str[..i])
    {
      if str[i] < 33 || str[i] > 126 || str[i] == EQUALS || str[i] == RBRACKET || str[i] == QUOTE {
        return false;
      }
    }
    ok := true;
  }

  method ValidatePrintableAscii(str: Str) returns (ok: bool)
    ensures ok <==> Printable(str)
  {
    for i := 0 to |str|
      invariant Printable(str[..i])
    {
      if str[i] < 33 || str[i] > 126 {
        return false;
      }
    }
    ok := true;
  }

  method ValidateParamName(str: Str) returns (ok: bool)
    ensures ok <==> ValidParamName(str)
  {
    ok := |str| <= MAX_PARAM_NAME_LENGTH;
    if ok {
      ok := ValidateNameChars(str);
    }
  }

  method ValidateElementName(str: Str) returns (ok: bool)
    ensures ok <==> ValidElementName(str)
  {
    ok := |str| <= MAX_ELEMENT_NAME_LENGTH;
    if ok {
      ok := ValidateNameChars(str);
    }
  }
}

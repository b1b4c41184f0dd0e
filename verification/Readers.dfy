/** Readers of the texts for people that module ToStrings renders. They know the punctuation by its bytes and the keys
    by their letters, and nothing of how the texts are made. */
module Readers {
  import opened Bytes
  import opened Records

  predicate Without(s: Str, stops: Str) {
    forall i | 0 <= i < |s| :: s[i] !in stops
  }

  /** What comes before the first of some bytes, and the rest. */
  function Until(s: Str, stops: Str): (r: (Str, Str))
    ensures s == r.0 + r.1 && Without(r.0, stops) && (r.1 != [] ==> r.1[0] in stops)
  {
    if s == [] || s[0] in stops then ([], s)
    else var (front, rest) := Until(s[1..], stops); ([s[0]] + front, rest)
  }

  lemma {:induction false} UntilBack(front: Str, rest: Str, stops: Str)
    requires Without(front, stops) && (rest != [] ==> rest[0] in stops)
    ensures Until(front + rest, stops) == (front, rest)
  {
    if front == [] {
      assert front + rest == rest;
    } else {
      assert (front + rest)[1..] == front[1..] + rest && [front[0]] + front[1..] == front;
      UntilBack(front[1..], rest, stops);
    }
  }

  /** What comes before the first space, or between the k-th and the next. */
  function Word(s: Str, k: nat): Option<Str>
    decreases k
  {
    var (word, rest) := Until(s, [32]);
    if rest == [] then None
    else if k == 0 then Some(word)
    else Word(rest[1..], k - 1)
  }

  lemma WordBack(word: Str, rest: Str, k: nat)
    requires Without(word, [32])
    ensures Word(word + [32] + rest, k) == if k == 0 then Some(word) else Word(rest, k - 1)
  {
    Regroup(word, [32], rest);
    UntilBack(word, [32] + rest, [32]);
    assert ([32] + rest)[1..] == rest;
  }

  // ----- name="value"

  /** A name, `="`, a value and the quote that ends it. */
  function TakeItem(s: Str): (r: Option<(ParamRec, Str)>)
    ensures r.Some? ==> |r.value.1| < |s|
  {
    var (name, more) := Until(s, [61]);
    if |more| < 2 || more[1] != 34 then None
    else
      var (value, rest) := Until(more[2..], [34]);
      if rest == [] then None else Some((ParamRec(name, value), rest[1..]))
  }

  lemma TakeItemBack(name: Str, value: Str, rest: Str)
    requires Without(name, [61]) && Without(value, [34])
    ensures TakeItem(name + [61, 34] + value + [34] + rest) == Some((ParamRec(name, value), rest))
  {
    var s := name + [61, 34] + value + [34] + rest;
    var more := [61, 34] + (value + ([34] + rest));
    assert s == name + more && more[2..] == value + ([34] + rest);
    UntilBack(name, more, [61]);
    UntilBack(value, [34] + rest, [34]);
    assert ([34] + rest)[1..] == rest;
  }

  /** Items with commas between them, up to the bracket that ends the list. */
  function TakeItems(s: Str): (r: Option<(seq<ParamRec>, Str)>)
    ensures r.Some? ==> |r.value.1| < |s|
    decreases |s|
  {
    match TakeItem(s)
    case None => None
    case Some((p, more)) =>
      if more == [] then None
      else if more[0] == 93 then Some(([p], more[1..]))
      else if more[0] != 44 then None
      else match TakeItems(more[1..])
        case None => None
        case Some((ps, rest)) => Some(([p] + ps, rest))
  }

  // ----- name, or name=[items]

  function TakeElement(s: Str, stops: Str): (r: Option<(ElementRec, Str)>)
    ensures r.Some? ==> |r.value.1| <= |s|
  {
    var (name, more) := Until(s, stops);
    if more == [] || more[0] != 61 then Some((ElementRec(name, []), more))
    else if |more| < 2 || more[1] != 91 then None
    else match TakeItems(more[2..])
      case None => None
      case Some((ps, rest)) => Some((ElementRec(name, ps), rest))
  }

  /** One element, and nothing behind it. */
  function ReadElement(s: Str): Option<ElementRec> {
    match TakeElement(s, [61])
    case None => None
    case Some((e, rest)) => if rest == [] then Some(e) else None
  }

  /** Elements with commas between them, to the end. */
  function ReadElements(s: Str): Option<seq<ElementRec>>
    decreases |s|
  {
    match TakeElement(s, [61, 44])
    case None => None
    case Some((e, rest)) =>
      if rest == [] then Some([e])
      else if rest[0] != 44 then None
      else match ReadElements(rest[1..])
        case None => None
        case Some(es) => Some([e] + es)
  }

  // ----- key="value"

  /** The value behind a key that is known. */
  function TakeKey(s: Str, key: string): (r: Option<(Str, Str)>)
    ensures r.Some? ==> |r.value.1| < |s|
  {
    match TakeItem(s)
    case None => None
    case Some((p, rest)) => if p.name == Ascii(key) then Some((p.value, rest)) else None
  }

  /** The values behind keys in this order, with commas between them. */
  function TakeKeys(s: Str, keys: seq<string>): (r: Option<(seq<Str>, Str)>)
    requires keys != []
    ensures r.Some? ==> |r.value.0| == |keys|
    decreases |keys|
  {
    match TakeKey(s, keys[0])
    case None => None
    case Some((v, more)) =>
      if |keys| == 1 then Some(([v], more))
      else if more == [] || more[0] != 44 then None
      else match TakeKeys(more[1..], keys[1..])
        case None => None
        case Some((vs, rest)) => Some(([v] + vs, rest))
  }

  const KEYS: seq<string> := ["prival", "app_name", "hostname", "message_id", "process_id", "message"]

  /** The values behind those keys, and the elements if any follow. */
  function ReadEntry(s: Str): (r: Option<(seq<Str>, seq<ElementRec>)>)
    ensures r.Some? ==> |r.value.0| == 6
  {
    match TakeKeys(s, KEYS)
    case None => None
    case Some((values, rest)) =>
      if rest == [] then Some((values, []))
      else if rest[0] != 44 then None
      else match ReadElements(rest[1..])
        case None => None
        case Some(es) => Some((values, es))
  }
}

/**
 * The grammar of RFC 8259 as a relation between texts and values, said with its own literals: a text
 * starts with a value and goes on with rest.  Read strictly it is the grammar itself.  Read laxly it
 * is what libjson takes instead: more white space and raw controls in strings, no number that starts
 * with 0, no empty container, and strings unescaped once more, keys twice more.
 */
module JsonGrammar {

  import opened Utf
  import opened Escapes
  import opened JsonValue

  // ---- white space and literal names --------------------------------------------------

  predicate Blank(lax: bool, c: Octet) { c in Ascii(" \t\n\r") || (lax && (c == 11 || c == 12)) }

  /** The text without its leading white space. */
  function Trim(lax: bool, s: Text): (t: Text)
    ensures |t| <= |s|
  {
    if s != [] && Blank(lax, s[0]) then Trim(lax, s[1..]) else s
  }

  /** The text starts with the character. */
  predicate Starts(s: Text, c: char) { s != [] && s[0] == c as int % 256 }

  // ---- numbers ------------------------------------------------------------------------

  function PowerOf10(n: nat): (p: nat) { if n == 0 then 1 else 10 * PowerOf10(n - 1) }

  predicate Numeric(c: Octet) { '0' as int <= c <= '9' as int }

  /** The value of digits by their places. */
  function Worth(ds: Text): (n: int) {
    if ds == [] then 0 else (ds[0] as int - '0' as int) * PowerOf10(|ds| - 1) + Worth(ds[1..])
  }

  /** Digits that do not start with 0, or strictly a lone 0. */
  predicate Numeral(lax: bool, ds: Text) {
    ds != [] && (forall i :: 0 <= i < |ds| ==> Numeric(ds[i])) && (Starts(ds, '0') ==> !lax && |ds| == 1)
  }

  ghost predicate IntegerAt(lax: bool, s: Text, n: int, rest: Text) {
    exists ds ::
      Numeral(lax, ds) && ((s == ds + rest && n == Worth(ds)) || (s == Ascii("-") + ds + rest && n == -Worth(ds)))
  }

  // ---- strings ------------------------------------------------------------------------

  /** Characters up to the closing quote spell str. */
  ghost predicate CharsAt(lax: bool, s: Text, str: Text, rest: Text)
    decreases |s|
  {
    if Starts(s, '"') then str == [] && rest == s[1..]
    else
      exists piece, more ::
        ItemAt(lax, s, piece, more) && |more| < |s| && piece <= str && CharsAt(lax, more, str[|piece|..], rest)
  }

  /** What is stored for the characters of a string. */
  ghost predicate StoredAs(lax: bool, str: Text, u: Text) { if lax then Unescaped(str, u) else u == str }

  ghost predicate StringAt(lax: bool, s: Text, u: Text, rest: Text) {
    exists str :: CharsAt(lax, s, str, rest) && StoredAs(lax, str, u)
  }

  // ---- values -------------------------------------------------------------------------

  ghost predicate ValueAt(lax: bool, s: Text, v: Value, rest: Text)
    decreases |s|, 1
  {
    HereAt(lax, Trim(lax, s), v, rest)
  }

  ghost predicate HereAt(lax: bool, s: Text, v: Value, rest: Text)
    decreases |s|, 0
  {
    match v
    case Null => s == Ascii("null") + rest
    case Bool(b) => s == Ascii(if b then "true" else "false") + rest
    case Int(n) => IntegerAt(lax, s, n, rest)
    case Str(u) => Starts(s, '"') && StringAt(lax, s[1..], u, rest)
    case Arr(xs) => Starts(s, '[') && (ElemsAt(lax, s[1..], xs, rest) || EmptyAt(lax, s[1..], |xs|, ']', rest))
    case Obj(ms) =>
      Starts(s, '{') &&
      ((exists ps :: PairsAt(lax, s[1..], ps, rest) && MapOf(ms, ps) && (lax || Unique(ps)))
       || EmptyAt(lax, s[1..], |ms|, '}', rest))
  }

  predicate EmptyAt(lax: bool, s: Text, n: nat, close: char, rest: Text) {
    !lax && n == 0 && Starts(Trim(lax, s), close) && rest == Trim(lax, s)[1..]
  }

  /** One element or more, and the closing bracket. */
  ghost predicate ElemsAt(lax: bool, s: Text, xs: seq<Value>, rest: Text)
    decreases |s|, 2
  {
    xs != [] && exists more :: |more| < |s| && ValueAt(lax, s, xs[0], more) && ElemsAfter(lax, more, xs[1..], rest)
  }

  ghost predicate ElemsAfter(lax: bool, s: Text, xs: seq<Value>, rest: Text)
    decreases |s|, 0
  {
    var t := Trim(lax, s);
    if xs == [] then Starts(t, ']') && rest == t[1..]
    else Starts(t, ',') && ElemsAt(lax, t[1..], xs, rest)
  }

  /** A name and its colon. */
  ghost predicate NameAt(lax: bool, s: Text, key: Text, rest: Text) {
    var t := Trim(lax, s);
    Starts(t, '"') && exists u, more ::
      && StringAt(lax, t[1..], u, more) && StoredAs(lax, u, key)
      && Starts(Trim(lax, more), ':') && rest == Trim(lax, more)[1..]
  }

  ghost predicate PairsAt(lax: bool, s: Text, ps: seq<Member>, rest: Text)
    decreases |s|, 2
  {
    ps != [] && exists m, more ::
      && |more| < |m| < |s| && NameAt(lax, s, ps[0].key, m)
      && ValueAt(lax, m, ps[0].val, more) && PairsAfter(lax, more, ps[1..], rest)
  }

  ghost predicate PairsAfter(lax: bool, s: Text, ps: seq<Member>, rest: Text)
    decreases |s|, 0
  {
    var t := Trim(lax, s);
    if ps == [] then Starts(t, '}') && rest == t[1..]
    else Starts(t, ',') && PairsAt(lax, t[1..], ps, rest)
  }

  /** The members are the pairs in key order; of pairs with one name the first counts. */
  ghost predicate MapOf(ms: seq<Member>, ps: seq<Member>) {
    Sorted(ms) && forall k :: Find(ms, k) == Find(ps, k)
  }

  /** Names should be unique. */
  predicate Unique(ps: seq<Member>) { forall i, j :: 0 <= i < j < |ps| ==> ps[i].key != ps[j].key }

  // ---- text that ends too early -------------------------------------------------------

  /** Characters of a string that is never closed. */
  ghost predicate OpenString(s: Text)
    decreases |s|
  {
    s == [] || (!Starts(s, '"') &&
      (EscapeCut(s) || exists piece, more :: ItemAt(true, s, piece, more) && |more| < |s| && OpenString(more)))
  }

  predicate OpenNumeral(s: Text) {
    Numeral(true, s) || s == Ascii("0")
  }

  /** The input ends before the next token does. A name is not looked at once the input is too short. */
  ghost predicate Unfinished(s: Text) {
    var t := Trim(true, s);
    || t == []
    || ((Starts(t, 'n') || Starts(t, 't')) && |t| <= 4 && '\n' as int !in t)
    || (Starts(t, 'f') && |t| <= 5 && '\n' as int !in t)
    || OpenNumeral(t) || (Starts(t, '-') && (|t| == 1 || OpenNumeral(t[1..])))
    || (Starts(t, '"') && OpenString(t[1..]))
  }

  /** An array that ends with the input, behind its opening bracket or a comma. */
  ghost predicate CutElems(s: Text, xs: seq<Value>)
    decreases |s|
  {
    if xs == [] then Unfinished(s)
    else
      exists more ::
        && |more| < |s| && ValueAt(true, s, xs[0], more) && Starts(Trim(true, more), ',')
        && CutElems(Trim(true, more)[1..], xs[1..])
  }

  ghost predicate CutPairs(s: Text, ps: seq<Member>)
    decreases |s|
  {
    if ps == [] then Unfinished(s)
    else
      exists m, more ::
        && |more| < |m| < |s| && NameAt(true, s, ps[0].key, m) && ValueAt(true, m, ps[0].val, more)
        && Starts(Trim(true, more), ',') && CutPairs(Trim(true, more)[1..], ps[1..])
  }

  ghost predicate CutValue(s: Text, v: Value) {
    var t := Trim(true, s);
    match v
    case Arr(xs) => Starts(t, '[') && CutElems(t[1..], xs)
    case Obj(ms) => Starts(t, '{') && exists ps :: CutPairs(t[1..], ps) && MapOf(ms, ps)
    case _ => false
  }
}

/**
 * JSON values and their printed form (libjson/src/json.cpp).
 *
 * A JSON object is a std::map: here its members in key order.  Strings and keys are raw
 * UTF-8; real numbers are not part of the model.
 */
module JsonValue {

  import opened Utf

  type Int64 = x: int | -0x8000_0000_0000_0000 <= x < 0x8000_0000_0000_0000

  datatype Value =
    | Null
    | Bool(b: bool)
    | Int(n: Int64)
    | Str(s: Text)
    | Arr(elems: seq<Value>)
    | Obj(members: seq<Member>)

  datatype Member = Member(key: Text, val: Value)

  // ---- objects ------------------------------------------------------------------------

  /** The order of std::map<std::string, ...>: octet by octet, a proper prefix first. */
  predicate Less(a: Text, b: Text) {
    if b == [] then false
    else if a == [] then true
    else a[0] < b[0] || (a[0] == b[0] && Less(a[1..], b[1..]))
  }

  predicate Sorted(m: seq<Member>) { forall i, j :: 0 <= i < j < |m| ==> Less(m[i].key, m[j].key) }

  /** map::insert: a key that is already there keeps its value. */
  function Insert(m: seq<Member>, e: Member): (r: seq<Member>) {
    if m == [] then [e]
    else if Less(e.key, m[0].key) then [e] + m
    else if e.key == m[0].key then m
    else [m[0]] + Insert(m[1..], e)
  }

  /** The value of the first member with a key, if there is one. */
  function Find(m: seq<Member>, k: Text): (r: seq<Value>) {
    if m == [] then [] else if m[0].key == k then [m[0].val] else Find(m[1..], k)
  }

  /** Every object inside has its members in order. */
  predicate WellFormed(v: Value) {
    match v
    case Arr(xs) => AllWellFormed(xs)
    case Obj(ms) => Sorted(ms) && MembersWellFormed(ms)
    case _ => true
  }

  predicate AllWellFormed(xs: seq<Value>) { xs == [] || (WellFormed(xs[0]) && AllWellFormed(xs[1..])) }

  predicate MembersWellFormed(ms: seq<Member>) {
    ms == [] || (WellFormed(ms[0].val) && MembersWellFormed(ms[1..]))
  }

  /** Every string and every key inside is valid UTF-8. */
  predicate Utf8Inside(v: Value) {
    match v
    case Str(s) => ValidUtf8(s)
    case Arr(xs) => AllUtf8(xs)
    case Obj(ms) => MembersUtf8(ms)
    case _ => true
  }

  predicate AllUtf8(xs: seq<Value>) { xs == [] || (Utf8Inside(xs[0]) && AllUtf8(xs[1..])) }

  predicate MembersUtf8(ms: seq<Member>) {
    ms == [] || (ValidUtf8(ms[0].key) && Utf8Inside(ms[0].val) && MembersUtf8(ms[1..]))
  }

  // ---- printing -----------------------------------------------------------------------

  function Digits(n: nat): (t: Text)
    ensures t != []
  {
    if n < 10 then [48 + n] else Digits(n / 10) + [48 + n % 10]
  }

  function Decimal(n: int): (t: Text) { if n < 0 then [45] + Digits(-n) else Digits(n) }

  function Spaces(n: nat): (t: Text) { seq(n, _ => 32) }

  /** What separates the parts of a container: a new line with its indent, or one space. */
  function Break(pretty: bool, indent: nat): (t: Text) {
    if pretty then [10] + Spaces(indent) else [32]
  }

  /** string_escape of a string it accepts. */
  function EscapedText(s: Text): (t: Text) { if Escape(s).Ok? then Escape(s).value else [] }

  function Quoted(s: Text): (t: Text) { [QUOTE] + EscapedText(s) + [QUOTE] }

  const NULL_TEXT: Text := [110, 117, 108, 108]
  const TRUE_TEXT: Text := [116, 114, 117, 101]
  const FALSE_TEXT: Text := [102, 97, 108, 115, 101]
  const COLON_TEXT: Text := [32, 58, 32]

  function Shown(v: Value, pretty: bool, indent: nat): (t: Text) {
    match v
    case Null => NULL_TEXT
    case Bool(b) => if b then TRUE_TEXT else FALSE_TEXT
    case Int(n) => Decimal(n)
    case Str(s) => Quoted(s)
    case Arr(xs) => [91] + ShownElems(xs, true, pretty, indent) + Break(pretty, indent) + [93]
    case Obj(ms) => [123] + ShownMembers(ms, true, pretty, indent) + Break(pretty, indent) + [125]
  }

  function ShownElems(xs: seq<Value>, first: bool, pretty: bool, indent: nat): (t: Text) {
    if xs == [] then []
    else
      (if first then [] else [44]) + Break(pretty, indent + 2) + Shown(xs[0], pretty, indent + 2)
      + ShownElems(xs[1..], false, pretty, indent)
  }

  function ShownMember(m: Member, pretty: bool, indent: nat): (t: Text) {
    Quoted(m.key) + COLON_TEXT + Shown(m.val, pretty, indent)
  }

  function ShownMembers(ms: seq<Member>, first: bool, pretty: bool, indent: nat): (t: Text) {
    if ms == [] then []
    else
      (if first then [] else [44]) + Break(pretty, indent + 2)
      + ShownMember(ms[0], pretty, indent + 2) + ShownMembers(ms[1..], false, pretty, indent)
  }

  /** string_escape accepts every string and key inside. */
  predicate Showable(v: Value) {
    match v
    case Str(s) => Escape(s).Ok?
    case Arr(xs) => AllShowable(xs)
    case Obj(ms) => MembersShowable(ms)
    case _ => true
  }

  predicate AllShowable(xs: seq<Value>) { xs == [] || (Showable(xs[0]) && AllShowable(xs[1..])) }

  predicate MembersShowable(ms: seq<Member>) {
    ms == [] || (Escape(ms[0].key).Ok? && Showable(ms[0].val) && MembersShowable(ms[1..]))
  }
}

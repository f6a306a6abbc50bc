/**
 * The non-empty elements between the slashes of a path: what the router and the URI paths both
 * make of a text.
 */
module PathElements {

  /** How many characters precede the first slash. */
  function Run(path: string): (n: nat)
    ensures n <= |path| && (n < |path| ==> path[n] == '/') && '/' !in path[..n]
  {
    if path == "" || path[0] == '/' then 0 else 1 + Run(path[1..])
  }

  function Split(path: string): (r: seq<string>)
    decreases |path|
  {
    if path == "" then []
    else if path[0] == '/' then Split(path[1..])
    else [path[..Run(path)]] + Split(path[Run(path)..])
  }

  predicate IsElement(e: string) { e != "" && '/' !in e }

  predicate AllElements(es: seq<string>) { forall i :: 0 <= i < |es| ==> IsElement(es[i]) }

  function Join(es: seq<string>): (path: string) {
    if es == [] then "" else "/" + es[0] + Join(es[1..])
  }

  lemma {:induction false} SplitElements(path: string)
    ensures AllElements(Split(path))
    decreases |path|
  {
    if path != "" {
      if path[0] == '/' { SplitElements(path[1..]); } else { SplitElements(path[Run(path)..]); }
    }
  }

  lemma {:induction false} RunOf(e: string, rest: string)
    requires '/' !in e && (rest != "" ==> rest[0] == '/')
    ensures Run(e + rest) == |e|
  {
    if e == "" {
      assert e + rest == rest;
    } else {
      assert (e + rest)[1..] == e[1..] + rest;
      RunOf(e[1..], rest);
    }
  }

  /** Splitting undoes joining; extra slashes make no difference. */
  lemma {:induction false} SplitJoin(es: seq<string>)
    requires AllElements(es)
    ensures Split(Join(es)) == es
  {
    if es != [] {
      var rest := Join(es[1..]);
      SplitJoin(es[1..]);
      RunOf(es[0], rest);
      var path := es[0] + rest;
      assert ("/" + es[0] + rest)[1..] == path;
      assert path[..|es[0]|] == es[0] && path[|es[0]|..] == rest;
      assert path[0] == es[0][0];
    }
  }

  /** A text without a slash is one element, or none. */
  lemma SplitPlain(e: string)
    requires '/' !in e
    ensures Split(e) == if e == "" then [] else [e]
  {
    if e != "" {
      assert e + "" == e;
      RunOf(e, "");
      assert e[..|e|] == e && e[|e|..] == "";
    }
  }

  /** Every slash cuts. With texts that have none this says what splitting is. */
  lemma {:induction false} SplitAtSlash(a: string, b: string)
    ensures Split(a + "/" + b) == Split(a) + Split(b)
    decreases |a|
  {
    var s := a + "/" + b;
    if a == "" {
      assert s == "/" + b && s[1..] == b;
    } else if a[0] == '/' {
      assert s[1..] == a[1..] + "/" + b;
      SplitAtSlash(a[1..], b);
    } else {
      var n := Run(a);
      assert s == a[..n] + (a[n..] + "/" + b);
      RunOf(a[..n], a[n..] + "/" + b);
      assert s[..n] == a[..n] && s[n..] == a[n..] + "/" + b && s[0] == a[0];
      SplitAtSlash(a[n..], b);
    }
  }

  lemma SkipSlash(path: string, i: nat)
    requires i < |path| && path[i] == '/'
    ensures Split(path[i..]) == Split(path[i + 1..])
  {
    assert path[i..][1..] == path[i + 1..];
  }

  lemma RunStep(path: string, i: nat)
    requires i < |path| && path[i] != '/'
    ensures Run(path[i..]) == 1 + Run(path[i + 1..])
  {
    assert path[i..][1..] == path[i + 1..];
  }

  lemma RunStops(path: string, i: nat)
    requires i <= |path| && (i < |path| ==> path[i] == '/')
    ensures Run(path[i..]) == 0
  {
  }

  lemma NothingLeft(path: string)
    ensures Split(path[|path|..]) == []
  {
  }

  lemma TakeElement(path: string, start: nat, i: nat)
    requires start < i <= |path| && Run(path[start..]) == i - start
    ensures Split(path[start..]) == [path[start..i]] + Split(path[i..])
  {
    assert path[start..][..i - start] == path[start..i];
    assert path[start..][i - start..] == path[i..];
    assert path[start..][0] == path[start];
  }
}

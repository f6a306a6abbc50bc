/**
 * Sections 5.2.3 and 5.2.4 of RFC 3986 on text, and when the path merge of UriPath agrees
 * with them.
 */
module Rfc3986 {

  import opened PathElements
  import opened UriPath

  predicate StartsWith(s: string, p: string) { |p| <= |s| && s[..|p|] == p }

  /** The text up to and including the last slash, empty without one. */
  function ThroughLastSlash(s: string): (r: string)
    ensures r <= s
    ensures r != "" ==> r[|r| - 1] == '/'
  {
    if s == "" then "" else if s[|s| - 1] == '/' then s else ThroughLastSlash(s[..|s| - 1])
  }

  /** Section 5.2.3, for a base with a path. */
  function MergeText(base: string, rel: string): (r: string) { ThroughLastSlash(base) + rel }

  /** The text before the last slash: the last segment and its slash are gone. */
  function DropLast(s: string): (r: string) {
    var t := ThroughLastSlash(s);
    if t == "" then "" else t[..|t| - 1]
  }

  /** The first segment with its leading slash, up to the next slash. */
  function FirstLength(s: string): (n: nat)
    requires s != ""
    ensures 0 < n <= |s|
  {
    1 + Run(s[1..])
  }

  /** Section 5.2.4: rules A to E applied until the input buffer is empty. */
  function RemoveDots(input: string, output: string): (r: string)
    decreases |input|
  {
    if input == "" then output
    else if StartsWith(input, "../") then RemoveDots(input[3..], output)
    else if StartsWith(input, "./") then RemoveDots(input[2..], output)
    else if StartsWith(input, "/./") then RemoveDots(input[2..], output)
    else if input == "/." then RemoveDots("/", output)
    else if StartsWith(input, "/../") then RemoveDots(input[3..], DropLast(output))
    else if input == "/.." then RemoveDots("/", DropLast(output))
    else if input == "." || input == ".." then output
    else RemoveDots(input[FirstLength(input)..], output + input[..FirstLength(input)])
  }

  // ---- the same on lists of segments --------------------------------------------------

  predicate SlashFree(segs: seq<string>) { forall i :: 0 <= i < |segs| ==> '/' !in segs[i] }

  function Reduce(input: seq<string>, output: seq<string>): (r: seq<string>)
    decreases |input|, if input != [] && IsDot(input[0]) then 1 else 0
  {
    if input == [] then output
    else if IsDot(input[0]) then
      var out := if input[0] == "." then output else Pop(output);
      if |input| == 1 then Reduce([""], out) else Reduce(input[1..], out)
    else Reduce(input[1..], output + [input[0]])
  }

  lemma {:induction false} JoinAppend(a: seq<string>, s: string)
    ensures Join(a + [s]) == Join(a) + "/" + s
  {
    if a == [] {
      assert a + [s] == [s];
      assert [s][1..] == [];
    } else {
      assert (a + [s])[1..] == a[1..] + [s];
      JoinAppend(a[1..], s);
    }
  }

  lemma JoinStart(segs: seq<string>)
    ensures segs != [] ==> Join(segs) != "" && Join(segs)[0] == '/'
  {
  }

  lemma {:induction false} LastSlashOf(t: string, s: string)
    requires '/' !in s
    ensures ThroughLastSlash(t + "/" + s) == t + "/"
  {
    var all := t + "/" + s;
    if s == "" {
      assert all == t + "/";
    } else {
      var n := |s| - 1;
      assert all[|all| - 1] == s[n];
      assert all[..|all| - 1] == t + "/" + s[..n];
      LastSlashOf(t, s[..n]);
    }
  }

  lemma DropLastJoin(out: seq<string>)
    requires SlashFree(out)
    ensures DropLast(Join(out)) == Join(Pop(out))
  {
    if out != [] {
      var front, s := out[..|out| - 1], out[|out| - 1];
      assert out == front + [s];
      JoinAppend(front, s);
      LastSlashOf(Join(front), s);
      assert (Join(front) + "/")[..|Join(front)|] == Join(front);
    }
  }

  lemma DotSegment(s: string, rest: string)
    requires IsDot(s) && (rest != "" ==> rest[0] == '/')
    ensures var t := "/" + s + rest;
      && !StartsWith(t, "../") && !StartsWith(t, "./") && t != "." && t != ".." && t != ""
      && t[1 + |s|..] == rest
      && (rest == "" ==> t == "/" + s)
      && (rest != "" ==> |t| > 1 + |s| && t[1 + |s|] == '/' && StartsWith(t, "/" + s + "/"))
  {
    var t := "/" + s + rest;
    assert t[0] == '/';
    if rest != "" { assert t[..2 + |s|] == "/" + s + "/"; }
  }

  /** A segment that is no dot segment falls to rule E. */
  lemma PlainSegment(s: string, rest: string)
    requires '/' !in s && !IsDot(s) && (rest != "" ==> rest[0] == '/')
    ensures var t := "/" + s + rest;
      && !StartsWith(t, "../") && !StartsWith(t, "./") && !StartsWith(t, "/./") && !StartsWith(t, "/../")
      && t != "/." && t != "/.." && t != "." && t != ".." && t != ""
      && FirstLength(t) == 1 + |s| && t[..1 + |s|] == "/" + s && t[1 + |s|..] == rest
  {
    var t := "/" + s + rest;
    assert t[0] == '/' && t[1..] == s + rest;
    RunOf(s, rest);
    DotsShown(s, rest, ".");
    DotsShown(s, rest, "..");
    assert "/" + "." + "/" == "/./" && "/" + ".." + "/" == "/../";
  }

  /** A text whose first segment shows as dots has dots for its first segment. */
  lemma DotsShown(s: string, rest: string, dots: string)
    requires '/' !in s && IsDot(dots) && (rest != "" ==> rest[0] == '/')
    ensures var t := "/" + s + rest; StartsWith(t, "/" + dots + "/") || t == "/" + dots ==> s == dots
  {
    var t, n := "/" + s + rest, |dots|;
    if StartsWith(t, "/" + dots + "/") || t == "/" + dots {
      var after := t[1 + n..];
      assert t[1..] == s + rest;
      assert t[1..] == dots + after;
      assert after == "" || after[0] == '/';
      RunOf(s, rest);
      RunOf(dots, after);
      assert s == t[1..][..n] == dots;
    }
  }

  lemma RemoveStep(s: string, rest: string, output: string)
    requires '/' !in s && (rest != "" ==> rest[0] == '/')
    ensures var t := "/" + s + rest;
      RemoveDots(t, output) ==
        if IsDot(s) then RemoveDots(if rest == "" then "/" else rest, if s == "." then output else DropLast(output))
        else RemoveDots(rest, output + ("/" + s))
  {
    if IsDot(s) {
      RemoveDot(s, rest, output);
    } else {
      RemovePlain(s, rest, output);
    }
    hide RemoveDots;
  }

  lemma RemoveDot(s: string, rest: string, output: string)
    requires IsDot(s) && (rest != "" ==> rest[0] == '/')
    ensures RemoveDots("/" + s + rest, output)
      == RemoveDots(if rest == "" then "/" else rest, if s == "." then output else DropLast(output))
  {
    hide DropLast, StartsWith, FirstLength;
    DotSegment(s, rest);
    DotPrefixes("/" + s + rest);
    assert s == ".." ==> ("/" + s + rest)[2] == '.';
    assert "/" + "." + "/" == "/./" && "/" + ".." + "/" == "/../";
  }

  lemma DotPrefixes(t: string)
    ensures |t| < 3 ==> !StartsWith(t, "/./")
    ensures |t| < 4 ==> !StartsWith(t, "/../")
    ensures |t| > 2 && t[2] == '.' ==> !StartsWith(t, "/./") && t != "/."
  {
    if |t| > 2 && t[2] == '.' { assert t[..3][2] == '.' != "/./"[2]; }
  }

  lemma RemovePlain(s: string, rest: string, output: string)
    requires '/' !in s && !IsDot(s) && (rest != "" ==> rest[0] == '/')
    ensures RemoveDots("/" + s + rest, output) == RemoveDots(rest, output + ("/" + s))
  {
    hide DropLast, StartsWith, FirstLength;
    PlainSegment(s, rest);
  }

  /** Section 5.2.4 on an absolute text works segment by segment. */
  lemma {:induction false} RemoveIsReduce(input: seq<string>, output: seq<string>)
    requires SlashFree(input) && SlashFree(output)
    ensures RemoveDots(Join(input), Join(output)) == Join(Reduce(input, output))
    decreases |input|, if input != [] && IsDot(input[0]) then 1 else 0
  {
    hide RemoveDots, StartsWith, Reduce, DropLast;
    ReduceUnfold(input, output);
    JoinNothing();
    if input == [] {
      RemoveNothing(Join(output));
    } else {
      var s, rest := input[0], Join(input[1..]);
      JoinStart(input[1..]);
      RemoveStep(s, rest, Join(output));
      if IsDot(s) {
        var out := if s == "." then output else Pop(output);
        DropLastJoin(output);
        if |input| == 1 { RemoveIsReduce([""], out); } else { RemoveIsReduce(input[1..], out); }
      } else {
        JoinAppend(output, s);
        assert Join(output) + ("/" + s) == Join(output) + "/" + s;
        RemoveIsReduce(input[1..], output + [s]);
      }
    }
  }

  lemma JoinNothing()
    ensures Join([]) == "" && Join([""]) == "/"
  {
    assert [""][1..] == [];
  }

  lemma RemoveNothing(output: string)
    ensures RemoveDots("", output) == output
  {
  }

  lemma ReduceUnfold(input: seq<string>, output: seq<string>)
    ensures Reduce(input, output) ==
      if input == [] then output
      else if IsDot(input[0]) then
        Reduce(if |input| == 1 then [""] else input[1..], if input[0] == "." then output else Pop(output))
      else Reduce(input[1..], output + [input[0]])
  {
  }

  // ---- segments that are not empty ----------------------------------------------------

  function NonEmpty(segs: seq<string>): (r: seq<string>) {
    if segs == [] then [] else (if segs[0] == "" then [] else [segs[0]]) + NonEmpty(segs[1..])
  }

  lemma {:induction false} SplitOfJoin(segs: seq<string>)
    requires SlashFree(segs)
    ensures Split(Join(segs)) == NonEmpty(segs)
  {
    if segs != [] {
      var s, rest := segs[0], Join(segs[1..]);
      SplitOfJoin(segs[1..]);
      JoinStart(segs[1..]);
      hide Split, Join;
      SplitSlash(s + rest);
      JoinUnfold(segs);
      if s == "" { assert s + rest == rest; } else { SplitElement(s, rest); }
    }
  }

  lemma JoinUnfold(segs: seq<string>)
    requires segs != []
    ensures Join(segs) == "/" + (segs[0] + Join(segs[1..]))
  {
  }

  /** Only the last segment may be empty: the text has no two slashes in a row. */
  predicate OnlyLastEmpty(segs: seq<string>) { forall i :: 0 <= i < |segs| - 1 ==> segs[i] != "" }

  lemma {:induction false} NonEmptyAppend(segs: seq<string>, s: string)
    requires AllElements(segs)
    ensures NonEmpty(segs + [s]) == if s == "" then segs else segs + [s]
  {
    if segs == [] {
      assert segs + [s] == [s];
      assert [s][1..] == [];
    } else {
      assert (segs + [s])[1..] == segs[1..] + [s];
      assert segs == [segs[0]] + segs[1..];
      NonEmptyAppend(segs[1..], s);
    }
  }

  lemma {:induction false} ReduceIsFold(input: seq<string>, output: seq<string>)
    requires SlashFree(input) && OnlyLastEmpty(input) && AllElements(output)
    ensures NonEmpty(Reduce(input, output)) == Fold(true, output, NonEmpty(input))
    decreases |input|, if input != [] && IsDot(input[0]) then 1 else 0
  {
    hide NonEmpty, Fold;
    NonEmptyUnfold(input);
    if input == [] {
      NonEmptyElements(output);
      FoldNothing(true, output);
    } else {
      var s := input[0];
      FoldStep(true, output, s, NonEmpty(input[1..]));
      if IsDot(s) {
        var out := if s == "." then output else Pop(output);
        if |input| == 1 {
          ReduceIsFold([""], out);
          NonEmptyUnfold([""]);
          NonEmptyUnfold([]);
        } else {
          ReduceIsFold(input[1..], out);
        }
      } else if s != "" {
        ReduceIsFold(input[1..], output + [s]);
      } else {
        assert input[1..] == [];
        NonEmptyAppend(output, "");
        NonEmptyUnfold([]);
        FoldNothing(true, output);
      }
    }
  }

  lemma NonEmptyUnfold(segs: seq<string>)
    ensures NonEmpty(segs) ==
      if segs == [] then []
      else if segs[0] == "" then NonEmpty(segs[1..])
      else [segs[0]] + NonEmpty(segs[1..])
  {
    if segs != [] { assert [] + NonEmpty(segs[1..]) == NonEmpty(segs[1..]); }
  }

  lemma {:induction false} NonEmptyElements(segs: seq<string>)
    requires AllElements(segs)
    ensures NonEmpty(segs) == segs
  {
    if segs != [] { NonEmptyElements(segs[1..]); }
  }

  // ---- merging ------------------------------------------------------------------------

  predicate NoDoubleSlash(s: string) { forall i :: 0 < i < |s| ==> !(s[i - 1] == '/' && s[i] == '/') }

  /** The segments of an absolute text, the last of them empty after a final slash. */
  function Parts(s: string): (r: seq<string>)
    requires s == "" || s[0] == '/'
    ensures SlashFree(r) && Join(r) == s
    decreases |s|
  {
    if s == "" then []
    else
      var n := Run(s[1..]);
      assert s[1..][..n] == s[1..1 + n] && s == "/" + s[1..1 + n] + s[1 + n..];
      var more := Parts(s[1 + n..]);
      assert ([s[1..1 + n]] + more)[1..] == more;
      [s[1..1 + n]] + more
  }

  lemma {:induction false} PartsOnlyLastEmpty(s: string)
    requires (s == "" || s[0] == '/') && NoDoubleSlash(s)
    ensures OnlyLastEmpty(Parts(s))
    decreases |s|
  {
    if s != "" {
      var n := Run(s[1..]);
      PartsOnlyLastEmpty(s[1 + n..]);
      assert |s| > 1 ==> s[1] != '/';
    }
  }

  lemma {:induction false} ReduceSlashFree(input: seq<string>, output: seq<string>)
    requires SlashFree(input) && SlashFree(output)
    ensures SlashFree(Reduce(input, output))
    decreases |input|, if input != [] && IsDot(input[0]) then 1 else 0
  {
    if input != [] {
      if IsDot(input[0]) {
        ReduceSlashFree(if |input| == 1 then [""] else input[1..],
          if input[0] == "." then output else Pop(output));
      } else {
        ReduceSlashFree(input[1..], output + [input[0]]);
      }
    }
  }

  /** Removing the dots of an absolute text is folding its segments. */
  lemma RemoveIsFold(s: string)
    requires s != "" && s[0] == '/' && NoDoubleSlash(s)
    ensures Split(RemoveDots(s, "")) == Fold(true, [], Split(s))
  {
    hide Split, RemoveDots, Reduce, NonEmpty, Fold, Parts;
    PartsOnlyLastEmpty(s);
    var p := Parts(s);
    assert Join([]) == "";
    RemoveIsReduce(p, []);
    ReduceSlashFree(p, []);
    SplitOfJoin(Reduce(p, []));
    SplitOfJoin(p);
    ReduceIsFold(p, []);
  }

  lemma {:induction false} SplitConcat(u: string, v: string)
    requires u == "" || u[|u| - 1] == '/'
    ensures Split(u + v) == Split(u) + Split(v)
    decreases |u|
  {
    if u == "" {
      assert u + v == v;
    } else if u[0] == '/' {
      assert (u + v)[1..] == u[1..] + v;
      SplitConcat(u[1..], v);
    } else {
      var n := Run(u);
      var rest := u[n..];
      SplitConcat(rest, v);
      assert IsElement(u[..n]) && u == u[..n] + rest && u + v == u[..n] + (rest + v);
      SplitElement(u[..n], rest);
      SplitElement(u[..n], rest + v);
    }
  }

  lemma {:induction false} LastSlashSplit(s: string)
    ensures '/' !in s[|ThroughLastSlash(s)|..]
  {
    if s != "" && s[|s| - 1] != '/' {
      var t := s[..|s| - 1];
      LastSlashSplit(t);
      var n := |ThroughLastSlash(t)|;
      assert s[n..] == t[n..] + [s[|s| - 1]];
    }
  }

  /** The text through the last slash loses the last segment, unless it ends there. */
  lemma SplitThroughLastSlash(s: string)
    requires s != "" && s[0] == '/'
    ensures ThroughLastSlash(s) != "" && ThroughLastSlash(s)[0] == '/'
    ensures Split(ThroughLastSlash(s)) == if s[|s| - 1] == '/' then Split(s) else Pop(Split(s))
  {
    hide Split, ThroughLastSlash;
    var u := ThroughLastSlash(s);
    var tail := s[|u|..];
    LastSlashSplit(s);
    SlashFound(s);
    assert s == u + tail;
    if s[|s| - 1] != '/' {
      assert tail != "";
      SplitConcat(u, tail);
      SplitElement(tail, "");
      SlashOnly("");
      assert tail + "" == tail && [tail] + [] == [tail];
      assert Pop(Split(u) + [tail]) == Split(u);
    }
  }

  lemma {:induction false} SlashFound(s: string)
    requires s != "" && s[0] == '/'
    ensures ThroughLastSlash(s) != "" && ThroughLastSlash(s)[0] == '/'
    ensures s[|s| - 1] == '/' ==> ThroughLastSlash(s) == s
    ensures ThroughLastSlash(s) <= s && ThroughLastSlash(s)[|ThroughLastSlash(s)| - 1] == '/'
  {
    if s[|s| - 1] != '/' { SlashFound(s[..|s| - 1]); }
  }

  /** What a relative path does to a base: how far it climbs and what it then adds. */
  datatype Residue = Residue(climb: nat, tail: seq<string>)

  function ResidueOf(elems: seq<string>, r: Residue): (q: Residue)
    decreases |elems|
  {
    if elems == [] then r
    else if elems[0] == ".." && r.tail == [] then ResidueOf(elems[1..], Residue(r.climb + 1, []))
    else ResidueOf(elems[1..], Residue(r.climb, Step(true, r.tail, elems[0])))
  }

  /** The number of base segments that a relative path removes, given enough of them. */
  function Climb(elems: seq<string>): (n: nat) { ResidueOf(elems, Residue(0, [])).climb }

  function Kept(segs: seq<string>, r: Residue): (q: seq<string>) {
    segs[..if r.climb <= |segs| then |segs| - r.climb else 0] + r.tail
  }

  lemma {:induction false} FoldIsResidue(segs: seq<string>, elems: seq<string>, r: Residue)
    ensures Fold(true, Kept(segs, r), elems) == Kept(segs, ResidueOf(elems, r))
    decreases |elems|
  {
    if elems != [] {
      if elems[0] == ".." && r.tail == [] {
        PopKept(segs, r);
        FoldIsResidue(segs, elems[1..], Residue(r.climb + 1, []));
      } else {
        StepKept(segs, r, elems[0]);
        FoldIsResidue(segs, elems[1..], Residue(r.climb, Step(true, r.tail, elems[0])));
      }
    }
  }

  lemma PopKept(segs: seq<string>, r: Residue)
    requires r.tail == []
    ensures Step(true, Kept(segs, r), "..") == Kept(segs, Residue(r.climb + 1, []))
  {
  }

  lemma StepKept(segs: seq<string>, r: Residue, s: string)
    requires s == ".." ==> r.tail != []
    ensures Step(true, Kept(segs, r), s) == Kept(segs, r.(tail := Step(true, r.tail, s)))
  {
    var base := segs[..if r.climb <= |segs| then |segs| - r.climb else 0];
    if s == ".." {
      assert Pop(base + r.tail) == base + Pop(r.tail);
    } else if s != "." {
      assert base + r.tail + [s] == base + (r.tail + [s]);
    }
  }

  /** Dropping the last base segment makes no difference exactly when it is climbed away. */
  lemma DroppedSegment(segs: seq<string>, elems: seq<string>)
    ensures Fold(true, Pop(segs), elems) == Fold(true, segs, elems) <==> Climb(elems) >= |segs|
  {
    hide Fold, ResidueOf;
    var none := Residue(0, []);
    FoldIsResidue(segs, elems, none);
    FoldIsResidue(Pop(segs), elems, none);
    assert Kept(segs, none) == segs && Kept(Pop(segs), none) == Pop(segs);
    var q := ResidueOf(elems, none);
    assert |Kept(segs, q)| == (if q.climb <= |segs| then |segs| - q.climb else 0) + |q.tail|;
  }

  /** The segments that UriPath gives for a base and a relative reference. */
  function CodeMerge(base: string, rel: string): (r: seq<string>) {
    Merged(Fold(true, [], Split(base)), Fold(false, [], Split(rel)), false)
  }

  /**
   * For an absolute base without dot segments and a relative reference, neither with two
   * slashes in a row: the code gives the segments of sections 5.2.3 and 5.2.4 if and only
   * if the base does not end in a slash or the reference climbs above all of the base.
   */
  lemma MergeAgrees(base: string, rel: string)
    requires base != "" && base[0] == '/' && NoDoubleSlash(base) && DotFree(Split(base))
    requires (rel != "" ==> rel[0] != '/') && NoDoubleSlash(rel)
    ensures CodeMerge(base, rel) == Split(RemoveDots(MergeText(base, rel), ""))
      <==> base[|base| - 1] != '/' || Climb(Split(rel)) >= |Split(base)|
  {
    hide Split, RemoveDots, Fold, Climb, ThroughLastSlash;
    var u, s, e := ThroughLastSlash(base), Split(base), Split(rel);
    SplitThroughLastSlash(base);
    MergedNoDouble(base, rel);
    RemoveIsFold(u + rel);
    SplitConcat(u, rel);
    FoldAppend(true, [], Split(u), e);
    FoldPlain(true, [], Split(u));
    FoldPlain(true, [], s);
    FoldPlain(false, [], e);
    assert [] + Split(u) == Split(u) && [] + s == s && [] + e == e;
    DroppedSegment(s, e);
  }

  lemma MergedNoDouble(base: string, rel: string)
    requires base != "" && base[0] == '/' && NoDoubleSlash(base)
    requires (rel != "" ==> rel[0] != '/') && NoDoubleSlash(rel)
    ensures var u := ThroughLastSlash(base);
      NoDoubleSlash(u + rel) && (u != "" ==> u[|u| - 1] == '/' && (u + rel)[0] == u[0])
  {
    var u := ThroughLastSlash(base);
    var t := u + rel;
    forall i | 0 < i < |t|
      ensures !(t[i - 1] == '/' && t[i] == '/')
    {
      if i > |u| { assert t[i] == rel[i - |u|] && t[i - 1] == rel[i - 1 - |u|]; }
    }
  }
}

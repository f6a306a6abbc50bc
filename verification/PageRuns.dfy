/** Runs on a key page that end where the balanced world does: a stored height that wraps, a removal
    that loses the balance, and a full page that a refused key still changes
    (librdb/src/keyrec.cpp). */
module PageRuns {
  import opened KeyOrder
  import opened AvlTree
  import opened AvlBalance
  import opened BareTree
  import opened PageOps
  import KR = KeyRecords

  // ---------- runs by rank ----------

  datatype RankOp = In(rank: nat) | Out(rank: nat)

  function OnPage(op: RankOp): (p: PageOp) {
    if op.In? then PutOp(KeyAt(op.rank), 0) else RemoveOp(KeyAt(op.rank))
  }

  function OpsOf(rs: seq<RankOp>): (ops: seq<PageOp>)
    ensures |ops| == |rs|
  {
    if rs == [] then [] else OpsOf(rs[..|rs| - 1]) + [OnPage(rs[|rs| - 1])]
  }

  function BareStep(b: Bare, op: RankOp): (u: Bare) {
    if op.In? then BarePut(b, op.rank) else BareRemove(b, op.rank)
  }

  function BareRun(rs: seq<RankOp>): (b: Bare) {
    if rs == [] then Tip else BareStep(BareRun(rs[..|rs| - 1]), rs[|rs| - 1])
  }

  /** Every insertion of the run finds room on a page of n records. */
  predicate Fits(rs: seq<RankOp>, n: nat) {
    rs != [] ==>
      var rest := rs[..|rs| - 1];
      Fits(rest, n) && (rs[|rs| - 1].In? ==> BareSize(BareRun(rest)) < n)
  }

  /** The run fits the page and leads to b. */
  predicate Leads(n: nat, rs: seq<RankOp>, b: Bare) { Fits(rs, n) && BareRun(rs) == b }

  lemma LeadsOn(n: nat, rs: seq<RankOp>, b: Bare, op: RankOp, u: Bare)
    requires Leads(n, rs, b) && (op.In? ==> BareSize(b) < n) && BareStep(b, op) == u
    ensures Leads(n, rs + [op], u)
  {
    hide BareStep, BareSize;
    assert (rs + [op])[..|rs|] == rs;
  }

  lemma LeadsNowhere(n: nat)
    ensures Leads(n, [], Tip) && BareSize(Tip) == 0
  {
  }

  /** The ranks that are there after a run. */
  function RanksAfter(rs: seq<RankOp>): (s: set<nat>) {
    if rs == [] then {}
    else
      var rest, op := RanksAfter(rs[..|rs| - 1]), rs[|rs| - 1];
      if op.In? then rest + {op.rank} else rest - {op.rank}
  }

  /** Ranks of one-byte keys that do not begin with NUL. */
  predicate OneByte(r: nat) { 2 <= r <= 256 }

  /** Every insertion of the run is of a new key, and every removal of one that is there, not the last,
      and whose record does not have two children. */
  predicate Clean(rs: seq<RankOp>) {
    rs != [] ==>
      var rest, op := rs[..|rs| - 1], rs[|rs| - 1];
      && Clean(rest) && OneByte(op.rank)
      && if op.In? then op.rank !in RanksAfter(rest)
         else
           var b := BareRun(rest);
           op.rank in RanksAfter(rest) && Finds(b, op.rank) && !BareTwo(b, op.rank) && BareSize(b) > 1
  }

  /** The run fits the page, is clean, and leads to b with ranks s and at most size records. */
  predicate Tidy(n: nat, rs: seq<RankOp>, b: Bare, s: set<nat>, size: nat) {
    Leads(n, rs, b) && Clean(rs) && RanksAfter(rs) == s && BareSize(b) <= size
  }

  lemma TidyNowhere(n: nat)
    ensures Tidy(n, [], Tip, {}, 0)
  {
  }

  lemma TidyIn(n: nat, rs: seq<RankOp>, b: Bare, s: set<nat>, r: nat, u: Bare, size: nat)
    requires Tidy(n, rs, b, s, size) && size < n && 2 <= r <= 256 && r !in s && BarePut(b, r) == u
    ensures Tidy(n, rs + [In(r)], u, s + {r}, size + 1)
  {
    hide BarePut, Leads, BareSize, BareRun;
    PutSize(b, r);
    LeadsOn(n, rs, b, In(r), u);
    assert (rs + [In(r)])[..|rs|] == rs;
  }

  lemma TidyOut(n: nat, rs: seq<RankOp>, b: Bare, s: set<nat>, r: nat, u: Bare, size: nat)
    requires Tidy(n, rs, b, s, size + 1) && 2 <= r <= 256 && r in s && BareRemove(b, r) == u && u != Tip
    requires Finds(b, r) && !BareTwo(b, r)
    ensures Tidy(n, rs + [Out(r)], u, s - {r}, size)
  {
    hide BareRemove, BareRun;
    RemoveSize(b, r);
    LeadsOn(n, rs, b, Out(r), u);
    assert (rs + [Out(r)])[..|rs|] == rs;
  }

  /** On the page the run leads to the same tree. */
  lemma {:induction false} RunOnPage(n: nat, rs: seq<RankOp>)
    requires Fits(rs, n)
    ensures Strip(AfterOps(n, OpsOf(rs))) == BareRun(rs)
  {
    hide BarePut, BareRemove, BareSize, Strip, Put, Remove;
    if rs != [] {
      var rest, op := rs[..|rs| - 1], rs[|rs| - 1];
      RunOnPage(n, rest);
      var t := AfterOps(n, OpsOf(rest));
      AfterOne(n, OpsOf(rest), OnPage(op));
      RunSound(n, OpsOf(rest));
      SoundSize(t, n);
      StripMeasures(t);
      if op.In? {
        StripPut(t, KeyAt(op.rank), 0, FreeFrom(t, 0, n));
      } else {
        StripRemove(t, KeyAt(op.rank));
      }
    } else {
      StripLeaf();
    }
  }

  // ---------- a stored height that wraps ----------

  function One(r: nat): (b: Bare) { Join(Tip, r, Tip) }

  function Three(i: nat): (b: Bare) { Join(One(i), i + 1, One(i + 2)) }

  /** Three keys with a fourth one behind them, and with a fifth. */
  function Four(i: nat): (b: Bare) { Join(One(i), i + 1, Join(Tip, i + 2, One(i + 3))) }

  function Five(i: nat): (b: Bare) { Join(One(i), i + 1, Three(i + 2)) }

  /** A spine of n records with nothing on their left, above a given tree. */
  function Spine(n: nat, i: nat, bottom: Bare): (b: Bare) {
    if n == 0 then bottom else Join(Tip, i + 1, Spine(n - 1, i + 2, bottom))
  }

  lemma {:induction false} SpineMeasures(n: nat, i: nat, b: Bare)
    ensures BareHeight(Spine(n, i, b)) == n + BareHeight(b) && BareSize(Spine(n, i, b)) == n + BareSize(b)
    ensures 0 <= Shown(b) && n + Shown(b) <= MAX_CHAR ==> Shown(Spine(n, i, b)) == n + Shown(b)
    ensures 0 <= Shown(b) && n + Shown(b) == MAX_CHAR + 1 && n > 0 ==> Shown(Spine(n, i, b)) == -128
    decreases n
  {
    if n > 0 { SpineMeasures(n - 1, i + 2, b); }
  }

  /** Three high and still storable: what the spine needs of the tree below to be left alone. */
  predicate Heavy(n: nat, b: Bare) { 3 <= Shown(b) && n + Shown(b) <= MAX_CHAR + 1 }

  lemma SpineStands(n: nat, i: nat, b: Bare)
    requires n > 0 && Heavy(n, b)
    ensures BareBalance(Spine(n, i, b)) == Spine(n, i, b)
  {
    SpineMeasures(n - 1, i + 2, b);
  }

  lemma {:induction false} SpinePut(n: nat, i: nat, b: Bare, r: nat)
    requires r >= i + 2 * n && Heavy(n, BarePut(b, r))
    ensures BarePut(Spine(n, i, b), r) == Spine(n, i, BarePut(b, r))
    decreases n
  {
    hide BareBalance;
    if n > 0 {
      SpinePut(n - 1, i + 2, b, r);
      SpineStands(n, i, BarePut(b, r));
    }
  }

  lemma {:induction false} SpineRemove(n: nat, i: nat, b: Bare, r: nat)
    requires r >= i + 2 * n && Heavy(n, BareRemove(b, r))
    ensures BareRemove(Spine(n, i, b), r) == Spine(n, i, BareRemove(b, r))
    decreases n
  {
    hide BareBalance;
    if n > 0 {
      SpineRemove(n - 1, i + 2, b, r);
      SpineStands(n, i, BareRemove(b, r));
    }
  }

  lemma {:induction false} SpineLonger(n: nat, i: nat, b: Bare)
    ensures Spine(n, i, Join(Tip, i + 2 * n + 1, b)) == Spine(n + 1, i, b)
    decreases n
  {
    if n > 0 { SpineLonger(n - 1, i + 2, b); }
  }

  lemma PutAtOne(r: nat, x: nat)
    requires r < x
    ensures BarePut(One(r), x) == Join(Tip, r, One(x))
  {
    assert BarePut(Tip, x) == One(x);
  }

  lemma ToThree(j: nat)
    ensures BarePut(Tip, j + 1) == One(j + 1)
    ensures BarePut(One(j + 1), j) == Join(One(j), j + 1, Tip)
    ensures BarePut(Join(One(j), j + 1, Tip), j + 2) == Three(j)
  {
    assert BarePut(Tip, j) == One(j) && BarePut(Tip, j + 2) == One(j + 2);
  }

  lemma ToFour(j: nat)
    ensures BarePut(Three(j), j + 3) == Four(j)
  {
    PutAtOne(j + 2, j + 3);
  }

  /** The fifth key turns three records. */
  lemma ToFive(j: nat)
    ensures BarePut(Four(j), j + 4) == Five(j)
  {
    PutAtOne(j + 3, j + 4);
    assert BarePut(Join(Tip, j + 2, One(j + 3)), j + 4) == Three(j + 2);
  }

  /** The first key goes, and nothing turns: three keys hang below the second one. */
  lemma FiveLoses(j: nat)
    ensures BareRemove(Five(j), j) == Join(Tip, j + 1, Three(j + 2))
  {
    assert BareRemove(One(j), j) == Tip;
  }

  lemma FewMeasures(j: nat)
    ensures BareSize(Three(j)) == 3 && BareSize(Four(j)) == 4 && BareSize(Five(j)) == 5
    ensures Shown(Four(j)) == 3 && Shown(Five(j)) == 3 && Shown(Join(Tip, j + 1, Three(j + 2))) == 3
    ensures BareHeight(Four(j)) == 3
  {
    OneMeasures(j);
    OneMeasures(j + 2);
    OneMeasures(j + 3);
    OneMeasures(j + 4);
    SizeJoin(One(j), j + 1, One(j + 2));
    SizeJoin(One(j + 2), j + 3, One(j + 4));
    SizeJoin(Tip, j + 2, One(j + 3));
    SizeJoin(One(j), j + 1, Join(Tip, j + 2, One(j + 3)));
    SizeJoin(One(j), j + 1, Three(j + 2));
    assert BareHeight(Join(Tip, j + 2, One(j + 3))) == 2;
  }

  lemma OneMeasures(r: nat)
    ensures BareSize(One(r)) == 1 && BareHeight(One(r)) == 1 && BareSize(Tip) == 0
  {
    assert BareSize(Tip) == 0 && BareHeight(Tip) == 0;
  }

  lemma SizeJoin(l: Bare, rank: nat, r: Bare)
    ensures BareSize(Join(l, rank, r)) == BareSize(l) + 1 + BareSize(r)
  {
  }

  /** Three sets, then m rounds of two sets and a removal. */
  function WrapRounds(m: nat): (rs: seq<RankOp>) {
    if m == 0 then [In(2), In(1), In(3)]
    else WrapRounds(m - 1) + [In(2 * m + 2), In(2 * m + 3), Out(2 * m - 1)]
  }

  lemma FirstThree(n: nat)
    requires n >= 3
    ensures Leads(n, WrapRounds(0), Three(1))
  {
    hide BarePut, BareRemove, Join, BareSize, Leads, Three;
    ToThree(1);
    OneMeasures(1);
    OneMeasures(2);
    SizeJoin(One(1), 2, Tip);
    LeadsNowhere(n);
    LeadsOn(n, [], Tip, In(2), One(2));
    LeadsOn(n, [] + [In(2)], One(2), In(1), Join(One(1), 2, Tip));
    LeadsOn(n, [] + [In(2)] + [In(1)], Join(One(1), 2, Tip), In(3), Three(1));
    assert [] + [In(2)] + [In(1)] + [In(3)] == WrapRounds(0);
  }

  /** The trees of a round at spine length m. */
  lemma Round(m: nat)
    requires m + 3 <= MAX_CHAR + 1
    ensures var j := 1 + 2 * m;
      && BarePut(Spine(m, 1, Three(j)), j + 3) == Spine(m, 1, Four(j))
      && BarePut(Spine(m, 1, Four(j)), j + 4) == Spine(m, 1, Five(j))
      && BareRemove(Spine(m, 1, Five(j)), j) == Spine(m + 1, 1, Three(j + 2))
      && BareSize(Spine(m, 1, Three(j))) == m + 3 && BareSize(Spine(m, 1, Four(j))) == m + 4
  {
    hide BarePut, BareRemove, Join, Three, Four, Five;
    var j := 1 + 2 * m;
    ToFour(j);
    ToFive(j);
    FiveLoses(j);
    FewMeasures(j);
    SpinePut(m, 1, Three(j), j + 3);
    SpinePut(m, 1, Four(j), j + 4);
    SpineRemove(m, 1, Five(j), j);
    SpineLonger(m, 1, Three(j + 2));
    SpineMeasures(m, 1, Three(j));
    SpineMeasures(m, 1, Four(j));
  }

  /** The spine grows by one record a round, and never needs more than two records beside it. */
  lemma {:induction false} Rounds(n: nat, m: nat)
    requires 3 <= n && m + 4 <= n && m + 2 <= MAX_CHAR + 1
    ensures Leads(n, WrapRounds(m), Spine(m, 1, Three(1 + 2 * m)))
    decreases m
  {
    hide BarePut, BareRemove, Join, Three, Four, Five, BareSize, Leads;
    if m == 0 {
      FirstThree(n);
    } else {
      var i, rs := m - 1, WrapRounds(m - 1);
      var j := 1 + 2 * i;
      Rounds(n, i);
      Round(i);
      LeadsOn(n, rs, Spine(i, 1, Three(j)), In(j + 3), Spine(i, 1, Four(j)));
      LeadsOn(n, rs + [In(j + 3)], Spine(i, 1, Four(j)), In(j + 4), Spine(i, 1, Five(j)));
      LeadsOn(n, rs + [In(j + 3)] + [In(j + 4)], Spine(i, 1, Five(j)), Out(j), Spine(m, 1, Three(j + 2)));
      assert rs + [In(j + 3)] + [In(j + 4)] + [Out(j)] == WrapRounds(m);
    }
  }

  function WrapRun(): (rs: seq<RankOp>) { WrapRounds(MAX_CHAR - 2) + [In(2 * MAX_CHAR)] }

  /** On pages of 129 records and more a run of sets and removals ends with a root that is 128 high
      and stores -128. */
  lemma HeightWraps(n: nat)
    requires n >= MAX_CHAR + 2
    ensures var t := AfterOps(n, OpsOf(WrapRun())); Height(t) == 128 && Stored(t) == -128 && !HeightsTrue(t)
  {
    hide BarePut, BareRemove, Join, Three, Four, BareSize, Spine, AfterOps, OpsOf, WrapRounds, Strip, Stored;
    var m := MAX_CHAR - 2;
    var j := 1 + 2 * m;
    Rounds(n, m);
    Round(m);
    LeadsOn(n, WrapRounds(m), Spine(m, 1, Three(j)), In(j + 3), Spine(m, 1, Four(j)));
    RunOnPage(n, WrapRun());
    var t := AfterOps(n, OpsOf(WrapRun()));
    FewMeasures(j);
    SpineMeasures(m, 1, Four(j));
    StripMeasures(t);
    HeightsTrueExactly(t);
  }

  /** A stored height can wrap exactly on pages of 129 records and more. */
  lemma WrapsExactly(n: nat)
    ensures (exists ops :: !HeightsTrue(AfterOps(n, ops))) <==> n >= MAX_CHAR + 2
  {
    if n >= MAX_CHAR + 2 {
      HeightWraps(n);
    } else {
      forall ops
        ensures HeightsTrue(AfterOps(n, ops))
      {
        SmallPagesNeverWrap(n, ops);
      }
    }
  }

  // ---------- a removal that loses the balance ----------

  lemma StripJoin(t: Tree, l: Bare, rank: nat, r: Bare)
    requires Strip(t) == Join(l, rank, r)
    ensures t.Node? && Strip(t.left) == l && Rank(t.key) == rank && Strip(t.right) == r
    ensures (l.Tip? <==> t.left.Leaf?) && (r.Tip? <==> t.right.Leaf?)
  {
  }

  lemma FiveShape(t: Tree)
    requires Strip(t) == Five(1)
    ensures t.Node? && t.left.Node? && t.left.left.Leaf? && t.left.right.Leaf? && Triple(t.right)
    ensures KeyCmp(t.left.key, t.key) < 0 && t.left.key == KeyAt(1)
  {
    hide Strip, Join, KeyAt, KeyCmp;
    StripJoin(t, One(1), 2, Three(3));
    StripJoin(t.left, Tip, 1, Tip);
    StripJoin(t.right, One(3), 4, One(5));
    StripJoin(t.right.left, Tip, 3, Tip);
    StripJoin(t.right.right, Tip, 5, Tip);
    KeyCmpIsRankOrder(t.left.key, t.key);
    KeyCmpIsRankOrder(t.left.key, KeyAt(1));
  }

  function FiveSets(): (rs: seq<RankOp>) { WrapRounds(0) + [In(4), In(5)] }

  /** Five sets and one removal: balanced before, not balanced after. */
  lemma BalanceLost(n: nat)
    requires n >= 5
    ensures Balanced(AfterOps(n, OpsOf(FiveSets())))
    ensures !Balanced(AfterOps(n, OpsOf(FiveSets()) + [RemoveOp(KeyAt(1))]))
  {
    hide BarePut, BareRemove, Join, Three, Four, Five, BareSize, AfterOps, OpsOf, WrapRounds, Strip, Balanced, Triple;
    FirstThree(n);
    ToFour(1);
    ToFive(1);
    FewMeasures(1);
    LeadsOn(n, WrapRounds(0), Three(1), In(4), Four(1));
    LeadsOn(n, WrapRounds(0) + [In(4)], Four(1), In(5), Five(1));
    assert WrapRounds(0) + [In(4)] + [In(5)] == FiveSets();
    RunOnPage(n, FiveSets());
    var t := AfterOps(n, OpsOf(FiveSets()));
    FiveShape(t);
    RemoveLosesBalance(t);
    AfterOne(n, OpsOf(FiveSets()), RemoveOp(KeyAt(1)));
  }

  // ---------- a full page that a refused key changes ----------

  function Page1(j: nat): (b: Bare) {
    One(j + 8)
  }

  function Page2(j: nat): (b: Bare) {
    Join(One(j + 4), j + 8, Tip)
  }

  function Page3(j: nat): (b: Bare) {
    Join(One(j + 4), j + 8, One(j + 14))
  }

  function Page4(j: nat): (b: Bare) {
    Join(Join(One(j + 2), j + 4, Tip), j + 8, One(j + 14))
  }

  function Page5(j: nat): (b: Bare) {
    Join(Join(One(j + 2), j + 4, Tip), j + 8, Join(One(j + 12), j + 14, Tip))
  }

  function Page6(j: nat): (b: Bare) {
    Join(Join(One(j + 2), j + 4, Tip), j + 8, Join(One(j + 12), j + 14, One(j + 15)))
  }

  function Page7(j: nat): (b: Bare) {
    Join(Join(One(j + 2), j + 4, Tip), j + 8, Join(Join(One(j + 11), j + 12, Tip), j + 14, One(j + 15)))
  }

  function Page8(j: nat): (b: Bare) {
    Join(Join(One(j + 2), j + 4, Tip), j + 8, Join(Join(One(j + 11), j + 12, One(j + 13)), j + 14, One(j + 15)))
  }

  function Page9(j: nat): (b: Bare) {
    Join(
      Join(One(j + 2), j + 4, Tip),
      j + 8,
      Join(Join(One(j + 11), j + 12, One(j + 13)), j + 14, Join(Tip, j + 15, One(j + 16))))
  }

  function Page10(j: nat): (b: Bare) {
    Join(One(j + 4), j + 8, Join(Join(One(j + 11), j + 12, One(j + 13)), j + 14, Join(Tip, j + 15, One(j + 16))))
  }

  function Page11(j: nat): (b: Bare) {
    Join(
      One(j + 4),
      j + 8,
      Join(Join(Join(One(j + 10), j + 11, Tip), j + 12, One(j + 13)), j + 14, Join(Tip, j + 15, One(j + 16))))
  }

  function Page12(j: nat): (b: Bare) {
    Join(
      One(j + 4),
      j + 8,
      Join(Join(Join(One(j + 9), j + 10, One(j + 11)), j + 12, One(j + 13)), j + 14, Join(Tip, j + 15, One(j + 16))))
  }

  function Page13(j: nat): (b: Bare) {
    Join(
      One(j + 4),
      j + 8,
      Join(Join(Join(One(j + 9), j + 10, One(j + 11)), j + 12, Tip), j + 14, Join(Tip, j + 15, One(j + 16))))
  }

  function Page14(j: nat): (b: Bare) {
    Join(
      Join(Join(One(j + 2), j + 4, Tip), j + 8, Join(One(j + 9), j + 10, One(j + 11))),
      j + 12,
      Join(Tip, j + 14, Join(Tip, j + 15, One(j + 16))))
  }

  /** The last pages differ in the records on the far left only. */
  function WithLeft(j: nat, b: Bare): (u: Bare) {
    Join(
      Join(b, j + 8, Join(One(j + 9), j + 10, One(j + 11))),
      j + 12,
      Join(Tip, j + 14, Join(Tip, j + 15, One(j + 16))))
  }

  function Page15(j: nat): (b: Bare) {
    WithLeft(j, Join(One(j + 2), j + 4, One(j + 6)))
  }

  function Page16(j: nat): (b: Bare) {
    WithLeft(j, Join(Join(One(j + 1), j + 2, Tip), j + 4, One(j + 6)))
  }

  function Page17(j: nat): (b: Bare) {
    WithLeft(j, Join(Join(One(j + 1), j + 2, One(j + 3)), j + 4, One(j + 6)))
  }

  function Page18(j: nat): (b: Bare) {
    WithLeft(j, Join(Join(One(j + 1), j + 2, One(j + 3)), j + 4, Join(One(j + 5), j + 6, Tip)))
  }

  function Page19(j: nat): (b: Bare) {
    WithLeft(j, Join(Join(One(j + 1), j + 2, One(j + 3)), j + 4, Join(One(j + 5), j + 6, One(j + 7))))
  }

  lemma ToPage1(j: nat)
    ensures BarePut(Tip, j + 8) == Page1(j)
  {
  }

  lemma ToPage2(j: nat)
    ensures BarePut(Page1(j), j + 4) == Page2(j)
  {
    assert BarePut(Tip, j + 4) == One(j + 4);
  }

  lemma ToPage3(j: nat)
    ensures BarePut(Page2(j), j + 14) == Page3(j)
  {
    assert BarePut(Tip, j + 14) == One(j + 14);
  }

  lemma ToPage4(j: nat)
    ensures BarePut(Page3(j), j + 2) == Page4(j)
  {
    assert BarePut(Tip, j + 2) == One(j + 2);
    assert BarePut(One(j + 4), j + 2) == Join(One(j + 2), j + 4, Tip);
  }

  lemma ToPage5(j: nat)
    ensures BarePut(Page4(j), j + 12) == Page5(j)
  {
    assert BarePut(Tip, j + 12) == One(j + 12);
    assert BarePut(One(j + 14), j + 12) == Join(One(j + 12), j + 14, Tip);
  }

  lemma ToPage6(j: nat)
    ensures BarePut(Page5(j), j + 15) == Page6(j)
  {
    assert BarePut(Tip, j + 15) == One(j + 15);
    assert BarePut(Join(One(j + 12), j + 14, Tip), j + 15) == Join(One(j + 12), j + 14, One(j + 15));
  }

  lemma ToPage7(j: nat)
    ensures BarePut(Page6(j), j + 11) == Page7(j)
  {
    assert BarePut(Tip, j + 11) == One(j + 11);
    assert BarePut(One(j + 12), j + 11) == Join(One(j + 11), j + 12, Tip);
    assert BarePut(Page6(j).right, j + 11) == Page7(j).right;
  }

  lemma ToPage8(j: nat)
    ensures BarePut(Page7(j), j + 13) == Page8(j)
  {
    assert BarePut(Tip, j + 13) == One(j + 13);
    assert BarePut(Join(One(j + 11), j + 12, Tip), j + 13) == Join(One(j + 11), j + 12, One(j + 13));
    assert BarePut(Page7(j).right, j + 13) == Page8(j).right;
  }

  lemma ToPage9(j: nat)
    ensures BarePut(Page8(j), j + 16) == Page9(j)
  {
    assert BarePut(Tip, j + 16) == One(j + 16);
    assert BarePut(One(j + 15), j + 16) == Join(Tip, j + 15, One(j + 16));
    assert BarePut(Page8(j).right, j + 16) == Page9(j).right;
  }

  lemma ToPage10(j: nat)
    ensures BareRemove(Page9(j), j + 2) == Page10(j)
  {
    assert BareRemove(One(j + 2), j + 2) == Tip;
    assert BareRemove(Join(One(j + 2), j + 4, Tip), j + 2) == One(j + 4);
  }

  lemma ToPage11(j: nat)
    ensures BarePut(Page10(j), j + 10) == Page11(j)
  {
    assert BarePut(Tip, j + 10) == One(j + 10);
    assert BarePut(One(j + 11), j + 10) == Join(One(j + 10), j + 11, Tip);
    assert BarePut(Page10(j).right.left, j + 10) == Page11(j).right.left;
    assert BarePut(Page10(j).right, j + 10) == Page11(j).right;
  }

  lemma ToPage12(j: nat)
    ensures BarePut(Page11(j), j + 9) == Page12(j)
  {
    assert BarePut(Tip, j + 9) == One(j + 9);
    assert BarePut(One(j + 10), j + 9) == Join(One(j + 9), j + 10, Tip);
    assert BarePut(Join(One(j + 10), j + 11, Tip), j + 9) == Join(One(j + 9), j + 10, One(j + 11));
    assert BarePut(Page11(j).right.left, j + 9) == Page12(j).right.left;
    assert BarePut(Page11(j).right, j + 9) == Page12(j).right;
  }

  lemma ToPage13(j: nat)
    ensures BareRemove(Page12(j), j + 13) == Page13(j)
  {
    assert BareRemove(One(j + 13), j + 13) == Tip;
    assert BareRemove(Page12(j).right.left, j + 13) == Page13(j).right.left;
    assert BareRemove(Page12(j).right, j + 13) == Page13(j).right;
  }

  lemma ToPage14(j: nat)
    ensures BarePut(Page13(j), j + 2) == Page14(j)
  {
    assert BarePut(Tip, j + 2) == One(j + 2);
    assert BarePut(One(j + 4), j + 2) == Join(One(j + 2), j + 4, Tip);
  }

  /** A record more on the far left turns nothing as long as the height there stays two or three. */
  lemma FarLeft(j: nat, b: Bare, r: nat, u: Bare)
    requires r < j + 8 && BarePut(b, r) == u && 2 <= Shown(u) <= 3
    ensures BarePut(WithLeft(j, b), r) == WithLeft(j, u)
  {
    hide BarePut;
    var l := Join(u, j + 8, Join(One(j + 9), j + 10, One(j + 11)));
    assert BareBalance(l) == l;
    PutsLeft(b, j + 8, Join(One(j + 9), j + 10, One(j + 11)), r);
    PutsLeft(WithLeft(j, b).left, j + 12, WithLeft(j, b).right, r);
  }

  lemma PutsLeft(l: Bare, rank: nat, b: Bare, r: nat)
    requires r < rank
    ensures BarePut(Join(l, rank, b), r) == BareBalance(Join(BarePut(l, r), rank, b))
  {
  }

  lemma ToPage15(j: nat)
    ensures BarePut(Page14(j), j + 6) == Page15(j)
  {
    assert BarePut(Tip, j + 6) == One(j + 6);
    FarLeft(j, Page14(j).left.left, j + 6, Page15(j).left.left);
  }

  lemma ToPage16(j: nat)
    ensures BarePut(Page15(j), j + 1) == Page16(j)
  {
    assert BarePut(Tip, j + 1) == One(j + 1);
    assert BarePut(One(j + 2), j + 1) == Join(One(j + 1), j + 2, Tip);
    FarLeft(j, Page15(j).left.left, j + 1, Page16(j).left.left);
  }

  lemma ToPage17(j: nat)
    ensures BarePut(Page16(j), j + 3) == Page17(j)
  {
    assert BarePut(Tip, j + 3) == One(j + 3);
    assert BarePut(Join(One(j + 1), j + 2, Tip), j + 3) == Join(One(j + 1), j + 2, One(j + 3));
    FarLeft(j, Page16(j).left.left, j + 3, Page17(j).left.left);
  }

  lemma ToPage18(j: nat)
    ensures BarePut(Page17(j), j + 5) == Page18(j)
  {
    assert BarePut(Tip, j + 5) == One(j + 5);
    assert BarePut(One(j + 6), j + 5) == Join(One(j + 5), j + 6, Tip);
    FarLeft(j, Page17(j).left.left, j + 5, Page18(j).left.left);
  }

  lemma ToPage19(j: nat)
    ensures BarePut(Page18(j), j + 7) == Page19(j)
  {
    assert BarePut(Tip, j + 7) == One(j + 7);
    assert BarePut(Join(One(j + 5), j + 6, Tip), j + 7) == Join(One(j + 5), j + 6, One(j + 7));
    FarLeft(j, Page18(j).left.left, j + 7, Page19(j).left.left);
  }

  lemma PageSizes(j: nat)
    ensures BareSize(Page19(j)) == 15
  {
    hide BareSize;
    ThreeSize(j + 1, j + 2, j + 3);
    ThreeSize(j + 5, j + 6, j + 7);
    ThreeSize(j + 9, j + 10, j + 11);
    OneMeasures(j + 16);
    var u := Join(Tip, j + 15, One(j + 16));
    SizeJoin(Tip, j + 15, One(j + 16));
    SizeJoin(Tip, j + 14, u);
    SizeJoin(Page19(j).left.left.left, j + 4, Page19(j).left.left.right);
    SizeJoin(Page19(j).left.left, j + 8, Page19(j).left.right);
    SizeJoin(Page19(j).left, j + 12, Page19(j).right);
  }

  lemma ThreeSize(a: nat, b: nat, c: nat)
    ensures BareSize(Join(One(a), b, One(c))) == 3
  {
    OneMeasures(a);
    OneMeasures(c);
    SizeJoin(One(a), b, One(c));
  }

  /** On the way to a greatest key the last page has a record that leans by two on a child that leans
      the same way. */
  lemma LastPageUnsettled(j: nat)
    ensures !BareSettled(Page19(j), j + 17)
  {
    var r := Page19(j).right;
    assert BareBalance(r) != r;
    assert !BareSettled(r, j + 17);
  }

  predicate AtMost(b: Bare, m: nat) { b.Fork? ==> b.rank <= m && AtMost(b.left, m) && AtMost(b.right, m) }

  lemma {:induction false} NoGreaterRank(b: Bare, r: nat, m: nat)
    requires m < r && AtMost(b, m)
    ensures !HasRank(b, r)
  {
    if b.Fork? {
      NoGreaterRank(b.left, r, m);
      NoGreaterRank(b.right, r, m);
    }
  }

  lemma JoinAtMost(l: Bare, rank: nat, r: Bare, m: nat)
    requires AtMost(l, m) && AtMost(r, m) && rank <= m
    ensures AtMost(Join(l, rank, r), m)
  {
  }

  lemma ThreeAtMost(a: nat, b: nat, c: nat, m: nat)
    requires a <= m && b <= m && c <= m
    ensures AtMost(Join(One(a), b, One(c)), m) && AtMost(One(a), m) && AtMost(Tip, m)
  {
    assert AtMost(Tip, m);
    JoinAtMost(Tip, a, Tip, m);
    JoinAtMost(Tip, c, Tip, m);
    JoinAtMost(One(a), b, One(c), m);
  }

  lemma LastPageRanks(j: nat)
    ensures !HasRank(Page19(j), j + 17)
  {
    hide AtMost;
    var m := j + 16;
    ThreeAtMost(j + 1, j + 2, j + 3, m);
    ThreeAtMost(j + 5, j + 6, j + 7, m);
    ThreeAtMost(j + 9, j + 10, j + 11, m);
    ThreeAtMost(j + 16, j + 16, j + 16, m);
    JoinAtMost(Tip, j + 15, One(j + 16), m);
    JoinAtMost(Tip, j + 14, Join(Tip, j + 15, One(j + 16)), m);
    JoinAtMost(Page19(j).left.left.left, j + 4, Page19(j).left.left.right, m);
    JoinAtMost(Page19(j).left.left, j + 8, Page19(j).left.right, m);
    JoinAtMost(Page19(j).left, j + 12, Page19(j).right, m);
    NoGreaterRank(Page19(j), j + 17, m);
  }

  /** Nine sets and a removal, and then four operations more. */
  function FillFirst(j: nat): (rs: seq<RankOp>) {
    [In(j + 8), In(j + 4), In(j + 14), In(j + 2), In(j + 12), In(j + 15), In(j + 11), In(j + 13), In(j + 16),
     Out(j + 2)]
  }

  function FillNext(j: nat): (rs: seq<RankOp>) {
    FillFirst(j) + [In(j + 10), In(j + 9), Out(j + 13), In(j + 2)]
  }

  /** Seventeen sets and two removals fill a page of fifteen records, the smallest page there is. */
  function FillRun(j: nat): (rs: seq<RankOp>) {
    FillNext(j) + [In(j + 6), In(j + 1), In(j + 3), In(j + 5), In(j + 7)]
  }

  function FirstRanks(j: nat): (s: set<nat>) {
    {j + 4, j + 8, j + 11, j + 12, j + 13, j + 14, j + 15, j + 16}
  }

  lemma FillsFirst(j: nat, n: nat)
    requires n >= 15 && 1 <= j <= 200
    ensures Tidy(n, FillFirst(j), Page10(j), FirstRanks(j), 8)
  {
    hide *;
    TidyNowhere(n);
    var rs, s := [], {};
    ToPage1(j);
    TidyIn(n, rs, Tip, s, j + 8, Page1(j), 0);
    rs, s := rs + [In(j + 8)], s + {j + 8};
    ToPage2(j);
    TidyIn(n, rs, Page1(j), s, j + 4, Page2(j), 1);
    rs, s := rs + [In(j + 4)], s + {j + 4};
    ToPage3(j);
    TidyIn(n, rs, Page2(j), s, j + 14, Page3(j), 2);
    rs, s := rs + [In(j + 14)], s + {j + 14};
    ToPage4(j);
    TidyIn(n, rs, Page3(j), s, j + 2, Page4(j), 3);
    rs, s := rs + [In(j + 2)], s + {j + 2};
    ToPage5(j);
    TidyIn(n, rs, Page4(j), s, j + 12, Page5(j), 4);
    rs, s := rs + [In(j + 12)], s + {j + 12};
    ToPage6(j);
    TidyIn(n, rs, Page5(j), s, j + 15, Page6(j), 5);
    rs, s := rs + [In(j + 15)], s + {j + 15};
    ToPage7(j);
    TidyIn(n, rs, Page6(j), s, j + 11, Page7(j), 6);
    rs, s := rs + [In(j + 11)], s + {j + 11};
    ToPage8(j);
    TidyIn(n, rs, Page7(j), s, j + 13, Page8(j), 7);
    rs, s := rs + [In(j + 13)], s + {j + 13};
    ToPage9(j);
    TidyIn(n, rs, Page8(j), s, j + 16, Page9(j), 8);
    rs, s := rs + [In(j + 16)], s + {j + 16};
    ToPage10(j);
    FindsIn9(j);
    PagesFork(j);
    TidyOut(n, rs, Page9(j), s, j + 2, Page10(j), 8);
    rs, s := rs + [Out(j + 2)], s - {j + 2};
    FillFirstIs(j);
    FirstRanksIs(j);
    assert rs == FillFirst(j) && s == FirstRanks(j);
  }

  lemma FillFirstIs(j: nat)
    ensures FillFirst(j) ==
      [In(j + 8), In(j + 4), In(j + 14), In(j + 2), In(j + 12), In(j + 15), In(j + 11), In(j + 13), In(j + 16),
       Out(j + 2)]
  {
  }

  lemma FirstRanksIs(j: nat)
    ensures FirstRanks(j) == {j + 4, j + 8, j + 11, j + 12, j + 13, j + 14, j + 15, j + 16}
  {
  }

  function NextRanks(j: nat): (s: set<nat>) {
    {j + 2, j + 4, j + 8, j + 9, j + 10, j + 11, j + 12, j + 14, j + 15, j + 16}
  }

  lemma FillsNext(j: nat, n: nat)
    requires n >= 15 && 1 <= j <= 200
    ensures Tidy(n, FillNext(j), Page14(j), NextRanks(j), 10)
  {
    hide *;
    FillsFirst(j, n);
    FirstRanksIs(j);
    var rs, s := FillFirst(j), FirstRanks(j);
    ToPage11(j);
    TidyIn(n, rs, Page10(j), s, j + 10, Page11(j), 8);
    rs, s := rs + [In(j + 10)], s + {j + 10};
    ToPage12(j);
    TidyIn(n, rs, Page11(j), s, j + 9, Page12(j), 9);
    rs, s := rs + [In(j + 9)], s + {j + 9};
    ToPage13(j);
    FindsIn12(j);
    PagesFork(j);
    TidyOut(n, rs, Page12(j), s, j + 13, Page13(j), 9);
    rs, s := rs + [Out(j + 13)], s - {j + 13};
    ToPage14(j);
    TidyIn(n, rs, Page13(j), s, j + 2, Page14(j), 9);
    rs, s := rs + [In(j + 2)], s + {j + 2};
    FillNextIs(j);
    NextRanksIs(j);
    assert rs == FillNext(j) && s == NextRanks(j);
  }

  lemma FillNextIs(j: nat)
    ensures FillNext(j) == FillFirst(j) + [In(j + 10), In(j + 9), Out(j + 13), In(j + 2)]
  {
  }

  lemma NextRanksIs(j: nat)
    ensures NextRanks(j) == {j + 2, j + 4, j + 8, j + 9, j + 10, j + 11, j + 12, j + 14, j + 15, j + 16}
  {
  }

  function LastRanks(j: nat): (s: set<nat>) {
    {j + 1, j + 2, j + 3, j + 4, j + 5, j + 6, j + 7, j + 8, j + 9, j + 10, j + 11,
     j + 12, j + 14, j + 15, j + 16}
  }

  lemma Fills(j: nat, n: nat)
    requires n >= 15 && 1 <= j <= 200
    ensures Tidy(n, FillRun(j), Page19(j), LastRanks(j), 15)
  {
    hide *;
    FillsNext(j, n);
    NextRanksIs(j);
    var rs, s := FillNext(j), NextRanks(j);
    ToPage15(j);
    TidyIn(n, rs, Page14(j), s, j + 6, Page15(j), 10);
    rs, s := rs + [In(j + 6)], s + {j + 6};
    ToPage16(j);
    TidyIn(n, rs, Page15(j), s, j + 1, Page16(j), 11);
    rs, s := rs + [In(j + 1)], s + {j + 1};
    ToPage17(j);
    TidyIn(n, rs, Page16(j), s, j + 3, Page17(j), 12);
    rs, s := rs + [In(j + 3)], s + {j + 3};
    ToPage18(j);
    TidyIn(n, rs, Page17(j), s, j + 5, Page18(j), 13);
    rs, s := rs + [In(j + 5)], s + {j + 5};
    ToPage19(j);
    TidyIn(n, rs, Page18(j), s, j + 7, Page19(j), 14);
    rs, s := rs + [In(j + 7)], s + {j + 7};
    FillRunIs(j);
    LastRanksIs(j);
    assert rs == FillRun(j) && s == LastRanks(j);
  }

  lemma FillRunIs(j: nat)
    ensures FillRun(j) == FillNext(j) + [In(j + 6), In(j + 1), In(j + 3), In(j + 5), In(j + 7)]
  {
  }

  lemma LastRanksIs(j: nat)
    ensures LastRanks(j) == {j + 1, j + 2, j + 3, j + 4, j + 5, j + 6, j + 7, j + 8, j + 9, j + 10, j + 11,
                             j + 12, j + 14, j + 15, j + 16}
  {
  }

  lemma PagesFork(j: nat)
    ensures Page10(j) != Tip && Page13(j) != Tip
  {
  }

  lemma FindsIn9(j: nat)
    ensures Finds(Page9(j), j + 2) && !BareTwo(Page9(j), j + 2)
  {
    var l := Page9(j).left;
    assert Finds(l.left, j + 2) && !BareTwo(l.left, j + 2);
    assert Finds(l, j + 2) && !BareTwo(l, j + 2);
  }

  lemma FindsIn12(j: nat)
    ensures Finds(Page12(j), j + 13) && !BareTwo(Page12(j), j + 13)
  {
    var l := Page12(j).right.left;
    assert Finds(l.right, j + 13) && !BareTwo(l.right, j + 13);
    assert Finds(l, j + 13) && !BareTwo(l, j + 13);
    assert Finds(Page12(j).right, j + 13) && !BareTwo(Page12(j).right, j + 13);
  }

  /** The page after that run is full, lacks the key, and has an unsettled path to it. */
  lemma LastPage(j: nat)
    requires 1 <= j <= 200
    ensures var t := AfterOps(15, OpsOf(FillRun(j))); var k := KeyAt(j + 17);
      Strip(t) == Page19(j) && Size(t) == 15 && k !in Entries(t) && !PathSettled(t, k)
  {
    hide *;
    Fills(j, 15);
    TidyFits(15, FillRun(j), Page19(j), LastRanks(j), 15);
    RunOnPage(15, FillRun(j));
    PageSizes(j);
    var t, k := AfterOps(15, OpsOf(FillRun(j))), KeyAt(j + 17);
    StripMeasures(t);
    LastPageUnsettled(j);
    LastPageRanks(j);
    StripKeys(t, k);
    if PathSettled(t, k) { StripSettled(t, k); }
  }

  lemma TidyFits(n: nat, rs: seq<RankOp>, b: Bare, s: set<nat>, size: nat)
    requires Tidy(n, rs, b, s, size)
    ensures Fits(rs, n) && BareRun(rs) == b && Clean(rs) && RanksAfter(rs) == s
  {
  }

  /** One more key on that page is refused, and the page changes all the same: s and root before it,
      s' and p after it. */
  lemma RefusedPutChanges(j: nat, s: seq<KR.KeyRec>, root: int, s': seq<KR.KeyRec>, p: int, idx: int)
    requires 1 <= j <= 200
    requires KR.Holds(s, root, 15, AfterOps(15, OpsOf(FillRun(j)))) && |s| == 15
    requires KR.PutDone(s, s', p, idx, AfterOps(15, OpsOf(FillRun(j))), KeyAt(j + 17), 0)
    ensures idx == -1 && (s' != s || p != root)
  {
    hide Strip, AfterOps, OpsOf, FillRun, Page19, PathSettled, KeyAt;
    LastPage(j);
    var t := AfterOps(15, OpsOf(FillRun(j)));
    KR.FullPage(s, root, 15, t);
    KR.FullPutUnchanged(s, s', root, 15, p, idx, t, KeyAt(j + 17), 0);
    KR.OrderedLookup(t, KeyAt(j + 17));
  }

  /** Such pages are there: the page object takes the run to one. */
  method FillPage(j: nat) returns (page: KR.KeyRecords)
    requires 1 <= j <= 200
    ensures page.Valid() && page.keys.Length == 15 == page.vcount && page.tree == AfterOps(15, OpsOf(FillRun(j)))
  {
    hide AfterOps, OpsOf, FillRun, Strip, Page19;
    LastPage(j);
    page := Run(15, OpsOf(FillRun(j)));
  }
}

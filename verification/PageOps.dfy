/** Runs of insertions and removals on one key page, as a fold of the tree functions. The page object
    follows it (librdb/src/keyrec.cpp), and what every run keeps is proved on it. */
module PageOps {
  import opened Options
  import opened KeyOrder
  import opened AvlTree
  import opened AvlBalance
  import KR = KeyRecords

  datatype PageOp = PutOp(key: Key, voff: int) | RemoveOp(key: Key)

  /** The first slot from i on, below n, that the tree does not use, or -1. */
  function FreeFrom(t: Tree, i: nat, n: nat): (r: int)
    ensures -1 <= r < n
    ensures r >= 0 ==> i <= r && r !in Slots(t) && forall j: nat :: i <= j < r ==> j in Slots(t)
    ensures r == -1 ==> forall j: nat :: i <= j < n ==> j in Slots(t)
    decreases n - i
  {
    if i >= n then -1 else if i !in Slots(t) then i else FreeFrom(t, i + 1, n)
  }

  /** One operation on a page of n records. */
  function Apply(t: Tree, n: nat, op: PageOp): (u: Tree) {
    match op
    case PutOp(k, v) => Put(t, k, v, FreeFrom(t, 0, n))
    case RemoveOp(k) => Remove(t, k)
  }

  function AfterOps(n: nat, ops: seq<PageOp>): (t: Tree) {
    if ops == [] then Leaf else Apply(AfterOps(n, ops[..|ops| - 1]), n, ops[|ops| - 1])
  }

  lemma AfterOne(n: nat, ops: seq<PageOp>, op: PageOp)
    ensures AfterOps(n, ops + [op]) == Apply(AfterOps(n, ops), n, op)
  {
    assert (ops + [op])[..|ops|] == ops;
  }

  // ---------- the page object ----------

  lemma FreeAgrees(s: seq<KR.KeyRec>, root: int, vcount: int, t: Tree)
    requires KR.Holds(s, root, vcount, t)
    ensures KR.FirstFree(s) == FreeFrom(t, 0, |s|)
  {
    var i, j := KR.FirstFree(s), FreeFrom(t, 0, |s|);
    if i >= 0 { assert i !in Slots(t); }
    if j >= 0 { assert !s[j].inUse; }
  }

  /** A page takes the operations as the fold does. */
  method Run(n: nat, ops: seq<PageOp>) returns (page: KR.KeyRecords)
    requires n <= MAX_SLOTS
    ensures page.Valid() && page.keys.Length == n && page.tree == AfterOps(n, ops)
  {
    hide AfterOps, KR.KeyRecords.Valid;
    page := EmptyPage(n);
    NoOps(n, ops);
    for i := 0 to |ops|
      invariant page.Valid() && fresh(page) && fresh(page.keys) && page.keys.Length == n
      invariant page.tree == AfterOps(n, ops[..i])
    {
      assert ops[..i + 1] == ops[..i] + [ops[i]];
      AfterOne(n, ops[..i], ops[i]);
      PageFree(page);
      match ops[i] {
        case PutOp(k, v) => var _ := page.Put(k, v);
        case RemoveOp(k) => var _ := page.Remove(k);
      }
    }
    assert ops[..|ops|] == ops;
  }

  lemma NoOps(n: nat, ops: seq<PageOp>)
    ensures AfterOps(n, ops[..0]) == Leaf
  {
  }

  lemma PageFree(page: KR.KeyRecords)
    requires page.Valid()
    ensures KR.FirstFree(page.keys[..]) == FreeFrom(page.tree, 0, page.keys.Length)
  {
    FreeAgrees(page.keys[..], page.root, page.vcount, page.tree);
  }

  method EmptyPage(n: nat) returns (page: KR.KeyRecords)
    requires n <= MAX_SLOTS
    ensures page.Valid() && fresh(page) && fresh(page.keys) && page.keys.Length == n && page.tree == Leaf
  {
    assert Within(Leaf, -1, 0);
    page := new KR.KeyRecords(seq(n, _ => KR.FREE_REC), -1, 0, Leaf);
  }

  // ---------- what every run keeps ----------

  ghost predicate Sound(t: Tree, n: nat) {
    Distinct(t) && Ordered(t) && forall j :: j in Slots(t) ==> j < n
  }

  lemma SoundSize(t: Tree, n: nat)
    requires Sound(t, n)
    ensures Size(t) <= n && (FreeFrom(t, 0, n) == -1 <==> Size(t) == n)
  {
    KR.SlotsBoundHeight(t, n);
    var all := KR.InitialSegment(n);
    var i := FreeFrom(t, 0, n);
    if i == -1 {
      KR.SubsetSize(all, Slots(t));
    } else {
      assert Slots(t) <= all - {i};
      KR.SubsetSize(Slots(t), all - {i});
    }
  }

  lemma ApplySound(t: Tree, n: nat, op: PageOp)
    requires Sound(t, n)
    ensures Sound(Apply(t, n, op), n)
  {
    match op {
      case PutOp(k, v) =>
        PutRefines(t, k, v, FreeFrom(t, 0, n));
        PutSlots(t, k, v, FreeFrom(t, 0, n));
      case RemoveOp(k) =>
        RemoveRefines(t, k);
        RemoveSlots(t, k);
        RemoveDistinct(t, k);
    }
  }

  lemma {:induction false} RunSound(n: nat, ops: seq<PageOp>)
    ensures Sound(AfterOps(n, ops), n)
  {
    if ops == [] {
      assert Within(Leaf, -1, 0);
    } else {
      RunSound(n, ops[..|ops| - 1]);
      ApplySound(AfterOps(n, ops[..|ops| - 1]), n, ops[|ops| - 1]);
    }
  }

  // ---------- the least page on which a stored height wraps ----------

  lemma ApplyLow(t: Tree, n: nat, op: PageOp)
    requires Sound(t, n) && 3 <= n && Height(t) < n
    ensures Height(Apply(t, n, op)) < n
  {
    var u := Apply(t, n, op);
    SoundSize(t, n);
    ApplySound(t, n, op);
    SoundSize(u, n);
    HeightAtMostSize(u);
    match op {
      case PutOp(k, v) =>
        var free := FreeFrom(t, 0, n);
        if Lookup(t, k).None? && free != -1 {
          PutMakesNoStick(t, k, v, free);
        } else {
          NothingMakesNoStick(t, k, v, free);
        }
      case RemoveOp(k) =>
        RemoveSlots(t, k);
        if Lookup(t, k).None? {
          RemoveAbsent(t, k, 0);
          NothingMakesNoStick(t, k, 0, -1);
        }
    }
  }

  /** A page of three records or more is never as high as it has records. */
  lemma {:induction false} RunLow(n: nat, ops: seq<PageOp>)
    requires n >= 3
    ensures Height(AfterOps(n, ops)) < n
  {
    if ops != [] {
      RunLow(n, ops[..|ops| - 1]);
      RunSound(n, ops[..|ops| - 1]);
      ApplyLow(AfterOps(n, ops[..|ops| - 1]), n, ops[|ops| - 1]);
    }
  }

  /** So on pages of at most 128 records every stored height is true, after every run. */
  lemma SmallPagesNeverWrap(n: nat, ops: seq<PageOp>)
    requires n <= MAX_CHAR + 1
    ensures HeightsTrue(AfterOps(n, ops))
  {
    var t := AfterOps(n, ops);
    if n >= 3 {
      RunLow(n, ops);
    } else {
      RunSound(n, ops);
      SoundSize(t, n);
      HeightAtMostSize(t);
    }
    HeightsTrueExactly(t);
  }
}

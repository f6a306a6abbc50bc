/** Key pages: a fixed array of key records that stores a balanced search tree by slot numbers
    and is updated in place (librdb/src/keyrec.cpp). */
module KeyRecords {
  import opened Options
  import opened KeyOrder
  import opened AvlTree
  import opened AvlBalance

  /** One key record; left and right are slot numbers, -1 for none. */
  datatype KeyRec = KeyRec(inUse: bool, height: int, left: int, right: int, key: Key, voff: int)

  /** What initialising a record leaves in it. */
  const FREE_REC := KeyRec(false, 1, -1, -1, [], -1)

  /** From slot i, following the links in the records, one reads tree t, and each record
      stores the height that follows from those of its children. */
  ghost predicate Shape(s: seq<KeyRec>, i: int, t: Tree)
    decreases t
  {
    match t
    case Leaf => i == -1
    case Node(l, slot, k, v, r) =>
      && i == slot < |s|
      && s[i].inUse && s[i].key == k && s[i].voff == v
      && s[i].height == Stored(t)
      && Shape(s, s[i].left, l) && Shape(s, s[i].right, r)
  }

  /** Like Shape, but the height stored at the root itself may be out of date. */
  ghost predicate Linked(s: seq<KeyRec>, i: int, t: Tree) {
    && t.Node? && i == t.slot < |s|
    && s[i].inUse && s[i].key == t.key && s[i].voff == t.voff
    && Shape(s, s[i].left, t.left) && Shape(s, s[i].right, t.right)
  }

  /** The first record not in use, or -1. */
  function FirstFree(s: seq<KeyRec>): (i: int)
    ensures -1 <= i < |s|
    ensures i >= 0 ==> !s[i].inUse && forall j :: 0 <= j < i ==> s[j].inUse
    ensures i == -1 ==> forall j :: 0 <= j < |s| ==> s[j].inUse
  {
    if s == [] then -1
    else if !s[0].inUse then 0
    else
      var r := FirstFree(s[1..]);
      assert forall j :: 1 <= j < |s| ==> s[j] == s[1..][j - 1];
      if r == -1 then -1 else r + 1
  }

  function FreeCount(s: seq<KeyRec>): nat {
    if s == [] then 0 else FreeCount(s[..|s| - 1]) + (if s[|s| - 1].inUse then 0 else 1)
  }

  /** Records, root and count together store tree t: the records in use are exactly its nodes. */
  ghost predicate Holds(s: seq<KeyRec>, root: int, vcount: int, t: Tree) {
    && Shape(s, root, t)
    && Distinct(t) && Ordered(t)
    && vcount == Size(t) && |s| <= MAX_SLOTS
    && (forall i :: 0 <= i < |s| ==> (s[i].inUse <==> i in Slots(t)))
  }

  /** An insertion took s to s', where the tree now hangs from p and the key sits in slot idx. */
  ghost predicate PutDone(s: seq<KeyRec>, s': seq<KeyRec>, p: int, idx: int, t: Tree, k: Key, v: int) {
    var free := FirstFree(s);
    && Shape(s', p, Put(t, k, v, free))
    && SameBut(s, s', Slots(Put(t, k, v, free)))
    && idx == (if Lookup(t, k).Some? then Search(t, k) else free)
  }

  /** A removal took s to s', where tree u now hangs from p and slot freed is empty again. */
  ghost predicate RemoveDone(s: seq<KeyRec>, s': seq<KeyRec>, p: int, freed: int, t: Tree, u: Tree) {
    && Shape(s', p, u)
    && SameBut(s, s', Slots(t))
    && -1 <= freed < |s'| && (freed >= 0 ==> s'[freed] == FREE_REC)
  }

  ghost function Gain(s: seq<KeyRec>, t: Tree, k: Key): int {
    if FirstFree(s) != -1 && Lookup(t, k).None? then 1 else 0
  }

  // ---------- facts about shapes ----------

  lemma {:induction false} ShapeFrame(s: seq<KeyRec>, s': seq<KeyRec>, i: int, t: Tree)
    requires Shape(s, i, t) && |s| == |s'|
    requires forall j :: j in Slots(t) && j < |s| ==> s[j] == s'[j]
    ensures Shape(s', i, t)
    decreases t
  {
    if t.Node? {
      ShapeFrame(s, s', s[i].left, t.left);
      ShapeFrame(s, s', s[i].right, t.right);
    }
  }

  lemma {:induction false} ShapeSlots(s: seq<KeyRec>, i: int, t: Tree)
    requires Shape(s, i, t)
    ensures forall j :: j in Slots(t) ==> j < |s| && s[j].inUse
    decreases t
  {
    if t.Node? {
      ShapeSlots(s, s[i].left, t.left);
      ShapeSlots(s, s[i].right, t.right);
    }
  }

  /** The height to store at a node, from the heights stored at its children. */
  function HeightAt(s: seq<KeyRec>, i: int): int {
    if 0 <= i < |s| then s[i].height else 0
  }

  lemma {:induction false} StoredHeight(s: seq<KeyRec>, i: int, t: Tree)
    requires Shape(s, i, t)
    ensures HeightAt(s, i) == Stored(t) && -1 <= i < |s|
    ensures i == -1 <==> t.Leaf?
  {
  }

  lemma {:induction false} SetHeight(s: seq<KeyRec>, i: int, t: Tree)
    requires Linked(s, i, t) && Distinct(t)
    ensures Shape(s[i := s[i].(height := Stored(t))], i, t)
  {
    var s' := s[i := s[i].(height := Stored(t))];
    DistinctParts(t);
    ShapeFrameTwo(s, s', s[i].left, t.left, i, i);
    ShapeFrameTwo(s, s', s[i].right, t.right, i, i);
  }

  /** Two record arrays differ in the given slots at most. */
  ghost predicate SameBut(s: seq<KeyRec>, s': seq<KeyRec>, slots: set<int>) {
    |s| == |s'| && forall j :: 0 <= j < |s| && j !in slots ==> s[j] == s'[j]
  }

  lemma {:induction false} ShapeFrameTwo(s: seq<KeyRec>, s': seq<KeyRec>, i: int, t: Tree, a: int, b: int)
    requires Shape(s, i, t) && |s| == |s'|
    requires forall j :: 0 <= j < |s| && j != a && j != b ==> s[j] == s'[j]
    requires a !in Slots(t) && b !in Slots(t)
    ensures Shape(s', i, t)
  {
    ShapeSlots(s, i, t);
    ShapeFrame(s, s', i, t);
  }

  lemma {:induction false} RotateLeftParts(t: Tree)
    requires t.Node? && t.right.Node? && Distinct(t)
    ensures var i, p, u := t.slot, t.right.slot, RotateLeft(t);
      && i != p && i in Slots(t) && p in Slots(t)
      && i !in Slots(t.left) && i !in Slots(t.right.left) && i !in Slots(t.right.right)
      && p !in Slots(t.left) && p !in Slots(t.right.left) && p !in Slots(t.right.right)
      && Distinct(u) && Distinct(u.left) && Slots(u) == Slots(t) && p !in Slots(u.left)
  {
    DistinctParts(t);
    DistinctParts(t.right);
    RotateLeftKeeps(t);
    DistinctParts(RotateLeft(t));
  }

  lemma {:induction false} RotateRightParts(t: Tree)
    requires t.Node? && t.left.Node? && Distinct(t)
    ensures var i, p, u := t.slot, t.left.slot, RotateRight(t);
      && i != p && i in Slots(t) && p in Slots(t)
      && i !in Slots(t.right) && i !in Slots(t.left.left) && i !in Slots(t.left.right)
      && p !in Slots(t.right) && p !in Slots(t.left.left) && p !in Slots(t.left.right)
      && Distinct(u) && Distinct(u.right) && Slots(u) == Slots(t) && p !in Slots(u.right)
  {
    DistinctParts(t);
    DistinctParts(t.left);
    RotateRightKeeps(t);
    DistinctParts(RotateRight(t));
  }

  /** Relinking for a left rotation. */
  lemma {:induction false} RotateLeftLinks(s: seq<KeyRec>, i: int, t: Tree)
    requires Linked(s, i, t) && t.right.Node? && Distinct(t)
    ensures var p := s[i].right;
      && 0 <= p < |s| && p == t.right.slot && p != i
      && var s' := s[i := s[i].(right := s[p].left)][p := s[p].(left := i)];
      && Linked(s', i, RotateLeft(t).left)
      && Shape(s', s'[p].right, t.right.right)
  {
    var p := s[i].right;
    RotateLeftParts(t);
    var s' := s[i := s[i].(right := s[p].left)][p := s[p].(left := i)];
    ShapeFrameTwo(s, s', s[i].left, t.left, i, p);
    ShapeFrameTwo(s, s', s[p].left, t.right.left, i, p);
    ShapeFrameTwo(s, s', s[p].right, t.right.right, i, p);
  }

  /** Relinking for a right rotation. */
  lemma {:induction false} RotateRightLinks(s: seq<KeyRec>, i: int, t: Tree)
    requires Linked(s, i, t) && t.left.Node? && Distinct(t)
    ensures var p := s[i].left;
      && 0 <= p < |s| && p == t.left.slot && p != i
      && var s' := s[i := s[i].(left := s[p].right)][p := s[p].(right := i)];
      && Linked(s', i, RotateRight(t).right)
      && Shape(s', s'[p].left, t.left.left)
  {
    var p := s[i].left;
    RotateRightParts(t);
    var s' := s[i := s[i].(left := s[p].right)][p := s[p].(right := i)];
    ShapeFrameTwo(s, s', s[i].right, t.right, i, p);
    ShapeFrameTwo(s, s', s[p].left, t.left.left, i, p);
    ShapeFrameTwo(s, s', s[p].right, t.left.right, i, p);
  }

  /** The pivot of a left rotation is linked to its new left child and keeps its right subtree. */
  ghost predicate PivotLeft(s: seq<KeyRec>, p: int, t: Tree)
    requires t.Node? && t.right.Node?
  {
    && p == t.right.slot < |s| && p != t.slot
    && s[p].inUse && s[p].key == t.right.key && s[p].voff == t.right.voff && s[p].left == t.slot
    && Shape(s, s[p].right, t.right.right)
  }

  ghost predicate PivotRight(s: seq<KeyRec>, p: int, t: Tree)
    requires t.Node? && t.left.Node?
  {
    && p == t.left.slot < |s| && p != t.slot
    && s[p].inUse && s[p].key == t.left.key && s[p].voff == t.left.voff && s[p].right == t.slot
    && Shape(s, s[p].left, t.left.left)
  }

  lemma {:induction false} RotateLeftFinish(s: seq<KeyRec>, s': seq<KeyRec>, p: int, t: Tree)
    requires t.Node? && t.right.Node? && Distinct(t) && PivotLeft(s, p, t)
    requires Shape(s', t.slot, RotateLeft(t).left) && SameBut(s, s', {t.slot})
    ensures Linked(s', p, RotateLeft(t)) && Distinct(RotateLeft(t))
  {
    RotateLeftParts(t);
    ShapeFrameTwo(s, s', s[p].right, t.right.right, t.slot, t.slot);
  }

  lemma {:induction false} RotateRightFinish(s: seq<KeyRec>, s': seq<KeyRec>, p: int, t: Tree)
    requires t.Node? && t.left.Node? && Distinct(t) && PivotRight(s, p, t)
    requires Shape(s', t.slot, RotateRight(t).right) && SameBut(s, s', {t.slot})
    ensures Linked(s', p, RotateRight(t)) && Distinct(RotateRight(t))
  {
    RotateRightParts(t);
    ShapeFrameTwo(s, s', s[p].left, t.left.left, t.slot, t.slot);
  }

  /** Tree l now hangs from q, and what changed since s leaves node i and its right subtree alone. */
  ghost predicate LeftReady(s: seq<KeyRec>, s': seq<KeyRec>, i: int, t: Tree, l: Tree, q: int, changed: set<int>) {
    && Linked(s, i, t) && SameBut(s, s', changed)
    && i !in changed && i !in Slots(t.right) && i !in Slots(l) && Slots(t.right) !! changed
    && Shape(s', q, l)
  }

  ghost predicate RightReady(s: seq<KeyRec>, s': seq<KeyRec>, i: int, t: Tree, r: Tree, q: int, changed: set<int>) {
    && Linked(s, i, t) && SameBut(s, s', changed)
    && i !in changed && i !in Slots(t.left) && i !in Slots(r) && Slots(t.left) !! changed
    && Shape(s', q, r)
  }

  lemma {:induction false} ReplaceLeft(s: seq<KeyRec>, s': seq<KeyRec>, i: int, t: Tree, l: Tree, q: int,
                                       changed: set<int>)
    requires LeftReady(s, s', i, t, l, q, changed)
    ensures Linked(s'[i := s'[i].(left := q)], i, t.(left := l))
  {
    var s'' := s'[i := s'[i].(left := q)];
    ShapeSlots(s, s[i].right, t.right);
    ShapeFrame(s, s'', s[i].right, t.right);
    ShapeFrameTwo(s', s'', q, l, i, i);
  }

  lemma {:induction false} ReplaceRight(s: seq<KeyRec>, s': seq<KeyRec>, i: int, t: Tree, r: Tree, q: int,
                                        changed: set<int>)
    requires RightReady(s, s', i, t, r, q, changed)
    ensures Linked(s'[i := s'[i].(right := q)], i, t.(right := r))
  {
    var s'' := s'[i := s'[i].(right := q)];
    ShapeSlots(s, s[i].left, t.left);
    ShapeFrame(s, s'', s[i].left, t.left);
    ShapeFrameTwo(s', s'', q, r, i, i);
  }

  /** The node above an insertion on its left, before it is balanced. */
  lemma {:induction false} PutBelowLeft(s: seq<KeyRec>, i: int, t: Tree, k: Key, v: int, free: int)
    requires Shape(s, i, t) && t.Node? && Distinct(t)
    requires -1 <= free < |s| && (free >= 0 ==> !s[free].inUse)
    ensures var l := Put(t.left, k, v, free); var m := t.(left := l);
      && Distinct(m)
      && Slots(l) + Slots(m) == Slots(Balance(m))
      && i !in Slots(l) && i !in Slots(t.right)
      && Slots(t.right) !! Slots(l)
      && Distinct(t.left)
  {
    hide Put, Balance, Distinct, Lookup;
    var l := Put(t.left, k, v, free);
    var m := t.(left := l);
    ShapeSlots(s, i, t);
    DistinctParts(t);
    PutSlots(t.left, k, v, free);
    DistinctParts(m);
    BalanceKeepsSlots(m);
  }

  lemma {:induction false} PutBelowRight(s: seq<KeyRec>, i: int, t: Tree, k: Key, v: int, free: int)
    requires Shape(s, i, t) && t.Node? && Distinct(t)
    requires -1 <= free < |s| && (free >= 0 ==> !s[free].inUse)
    ensures var r := Put(t.right, k, v, free); var m := t.(right := r);
      && Distinct(m)
      && Slots(r) + Slots(m) == Slots(Balance(m))
      && i !in Slots(r) && i !in Slots(t.left)
      && Slots(t.left) !! Slots(r)
      && Distinct(t.right)
  {
    hide Put, Balance, Distinct, Lookup;
    var r := Put(t.right, k, v, free);
    var m := t.(right := r);
    ShapeSlots(s, i, t);
    DistinctParts(t);
    PutSlots(t.right, k, v, free);
    DistinctParts(m);
    BalanceKeepsSlots(m);
  }

  /** What hanging a shrunk subtree needs: l replaces the left subtree of t and frees a slot of it. */
  lemma {:induction false} ShrunkBelowLeft(t: Tree, l: Tree, freed: int)
    requires t.Node? && Distinct(t) && Distinct(l)
    requires freed == -1 || freed in Slots(t.left)
    requires Slots(l) == Slots(t.left) - {freed}
    ensures var m := t.(left := l);
      && Distinct(m)
      && Slots(t.left) + Slots(m) <= Slots(t)
      && t.slot !in Slots(t.left) && t.slot !in Slots(t.right) && t.slot !in Slots(l)
      && Slots(t.right) !! Slots(t.left)
      && freed !in Slots(m)
      && Distinct(t.left)
  {
    DistinctParts(t);
    DistinctParts(t.(left := l));
  }

  lemma {:induction false} ShrunkBelowRight(t: Tree, r: Tree, freed: int)
    requires t.Node? && Distinct(t) && Distinct(r)
    requires freed == -1 || freed in Slots(t.right)
    requires Slots(r) == Slots(t.right) - {freed}
    ensures var m := t.(right := r);
      && Distinct(m)
      && Slots(t.right) + Slots(m) <= Slots(t)
      && t.slot !in Slots(t.left) && t.slot !in Slots(t.right) && t.slot !in Slots(r)
      && Slots(t.left) !! Slots(t.right)
      && freed !in Slots(m)
      && Distinct(t.right)
  {
    DistinctParts(t);
    DistinctParts(t.(right := r));
  }

  /** A search ends at the record that holds the key. */
  lemma {:induction false} SearchRecord(s: seq<KeyRec>, i: int, t: Tree, k: Key)
    requires Shape(s, i, t) && Lookup(t, k).Some?
    ensures 0 <= Search(t, k) < |s| && Search(t, k) in Slots(t)
    ensures s[Search(t, k)].key == k && s[Search(t, k)].voff == Lookup(t, k).value
    decreases t
  {
    KeyCmpIsRankOrder(k, t.key);
    if KeyCmp(k, t.key) < 0 {
      SearchRecord(s, s[i].left, t.left, k);
    } else if KeyCmp(k, t.key) > 0 {
      SearchRecord(s, s[i].right, t.right, k);
    }
  }

  /** The tree and its root slot determine every record in use. */
  lemma {:induction false} ShapeDetermines(s: seq<KeyRec>, s': seq<KeyRec>, i: int, t: Tree)
    requires Shape(s, i, t) && Shape(s', i, t) && |s| == |s'|
    ensures forall j :: j in Slots(t) ==> j < |s| && s[j] == s'[j]
    decreases t
  {
    if t.Node? {
      assert s[i].left == (if t.left.Leaf? then -1 else t.left.slot) == s'[i].left;
      assert s[i].right == (if t.right.Leaf? then -1 else t.right.slot) == s'[i].right;
      ShapeDetermines(s, s', s[i].left, t.left);
      ShapeDetermines(s, s', s[i].right, t.right);
    }
  }

  lemma {:induction false} HoldsAfterPut(s: seq<KeyRec>, s': seq<KeyRec>, root: int, vcount: int, p: int,
                                         idx: int, t: Tree, k: Key, v: int)
    requires Holds(s, root, vcount, t) && PutDone(s, s', p, idx, t, k, v)
    ensures Holds(s', p, vcount + Gain(s, t, k), Put(t, k, v, FirstFree(s)))
  {
    var free := FirstFree(s);
    var u := Put(t, k, v, free);
    PutRefines(t, k, v, free);
    PutSlots(t, k, v, free);
    ShapeSlots(s', p, u);
  }

  lemma {:induction false} HoldsAfterRemove(s: seq<KeyRec>, s': seq<KeyRec>, root: int, vcount: int, p: int,
                                            t: Tree, k: Key)
    requires Holds(s, root, vcount, t) && RemoveDone(s, s', p, FreedSlot(t, k), t, Remove(t, k))
    ensures Holds(s', p, vcount - (if Lookup(t, k).Some? then 1 else 0), Remove(t, k))
  {
    RemoveRefines(t, k);
    RemoveSlots(t, k);
    RemoveDistinct(t, k);
    ShapeSlots(s', p, Remove(t, k));
  }

  /** A page has no free record exactly when its count equals its size. */
  lemma {:induction false} FullPage(s: seq<KeyRec>, root: int, vcount: int, t: Tree)
    requires Holds(s, root, vcount, t)
    ensures FirstFree(s) == -1 <==> vcount == |s|
  {
    ShapeSlots(s, root, t);
    FreeCountIsComplement(s, Slots(t));
    NoneFree(s);
  }

  lemma {:induction false} NoneFree(s: seq<KeyRec>)
    ensures FreeCount(s) == 0 <==> forall j :: 0 <= j < |s| ==> s[j].inUse
  {
    if s != [] {
      NoneFree(s[..|s| - 1]);
      assert forall j :: 0 <= j < |s| - 1 ==> s[j] == s[..|s| - 1][j];
    }
  }

  lemma {:induction false} PutOutcome(s: seq<KeyRec>, s': seq<KeyRec>, p: int, idx: int, t: Tree, k: Key, v: int)
    requires Ordered(t) && PutDone(s, s', p, idx, t, k, v) && Size(t) <= MAX_SLOTS
    ensures var u := Put(t, k, v, FirstFree(s));
      && (idx == -1 <==> FirstFree(s) == -1 && k !in Entries(t))
      && Entries(u) == (if idx == -1 then Entries(t) else Entries(t)[k := v])
      && (idx != -1 ==> 0 <= idx < |s'| && s'[idx].key == k && s'[idx].voff == v)
      && Gain(s, t, k) == (if k in Entries(t) || idx == -1 then 0 else 1)
      && (Balanced(t) ==> Balanced(u))
  {
    var free := FirstFree(s);
    var u := Put(t, k, v, free);
    OrderedLookup(t, k);
    SearchFinds(t, k);
    PutRefines(t, k, v, free);
    if idx != -1 {
      OrderedLookup(u, k);
      PutSlot(t, k, v, free);
      SearchRecord(s', p, u, k);
    }
    if Balanced(t) {
      BalancedHeightBound(t);
      PutKeepsBalance(t, k, v, free);
    }
  }

  lemma {:induction false} GetOutcome(s: seq<KeyRec>, root: int, t: Tree, k: Key)
    requires Shape(s, root, t) && Ordered(t)
    ensures var idx := Search(t, k);
      && (idx == -1 <==> k !in Entries(t))
      && (idx != -1 ==> 0 <= idx < |s| && s[idx].key == k && s[idx].voff == Entries(t)[k])
  {
    OrderedLookup(t, k);
    SearchFinds(t, k);
    if Lookup(t, k).Some? {
      SearchRecord(s, root, t, k);
    }
  }

  lemma {:induction false} RemoveOutcome(t: Tree, k: Key)
    requires Ordered(t) && Distinct(t)
    ensures FreedSlot(t, k) == -1 <==> k !in Entries(t)
    ensures Lookup(t, k).Some? <==> k in Entries(t)
    ensures Entries(Remove(t, k)) == Entries(t) - {k}
    ensures FreedSlot(t, k) == Search(t, k) <==> !HasTwoChildren(t, k)
  {
    OrderedLookup(t, k);
    RemoveSlots(t, k);
    RemoveRefines(t, k);
    FreedSlotIsSearchSlot(t, k);
  }

  /** The page's entries are what searching its tree finds. */
  lemma {:induction false} OrderedLookup(t: Tree, k: Key)
    requires Ordered(t)
    ensures Lookup(t, k) == if k in Entries(t) then Some(Entries(t)[k]) else None
  {
    var hi :| Within(t, -1, hi);
    EntryIsLookup(t, k, -1, hi);
  }

  /** A page stores one tree only. */
  lemma {:induction false} ShapeUnique(s: seq<KeyRec>, i: int, t: Tree, u: Tree)
    requires Shape(s, i, t) && Shape(s, i, u)
    ensures t == u
    decreases t
  {
    if t.Node? {
      ShapeUnique(s, s[i].left, t.left, u.left);
      ShapeUnique(s, s[i].right, t.right, u.right);
    }
  }

  /** A new key on a full page changes nothing exactly when its search path is settled. */
  lemma {:induction false} FullPutUnchanged(s: seq<KeyRec>, s': seq<KeyRec>, root: int, vcount: int, p: int,
                                            idx: int, t: Tree, k: Key, v: int)
    requires Holds(s, root, vcount, t) && PutDone(s, s', p, idx, t, k, v)
    requires FirstFree(s) == -1 && k !in Entries(t)
    ensures s' == s && p == root <==> PathSettled(t, k)
  {
    OrderedLookup(t, k);
    PutWithoutRoom(t, k, v);
    if PathSettled(t, k) {
      ShapeDetermines(s, s', root, t);
    } else if s' == s && p == root {
      ShapeUnique(s, root, t, Put(t, k, v, -1));
    }
  }

  /** A removal that does not find its key changes nothing exactly when its search path is settled. */
  lemma {:induction false} MissedRemoveUnchanged(s: seq<KeyRec>, s': seq<KeyRec>, root: int, vcount: int, p: int,
                                                 t: Tree, k: Key)
    requires Holds(s, root, vcount, t) && RemoveDone(s, s', p, FreedSlot(t, k), t, Remove(t, k))
    requires k !in Entries(t)
    ensures s' == s && p == root <==> PathSettled(t, k)
  {
    OrderedLookup(t, k);
    RemoveWithoutKey(t, k);
    if PathSettled(t, k) {
      ShapeDetermines(s, s', root, t);
    } else if s' == s && p == root {
      ShapeUnique(s, root, t, Remove(t, k));
    }
  }

  lemma {:induction false} InitialSegment(n: nat) returns (a: set<nat>)
    ensures |a| == n && forall i: nat :: i in a <==> i < n
  {
    if n == 0 {
      a := {};
    } else {
      var b := InitialSegment(n - 1);
      a := b + {n - 1};
    }
  }

  /** Distinct slots below n: the tree has at most n nodes, so it is at most n high. */
  lemma {:induction false} SlotsBoundHeight(t: Tree, n: nat)
    requires Distinct(t) && forall j :: j in Slots(t) ==> j < n
    ensures Height(t) <= Size(t) <= n
  {
    HeightAtMostSize(t);
    var all := InitialSegment(n);
    assert Slots(t) <= all;
    SubsetSize(Slots(t), all);
  }

  lemma SubsetSize(a: set<nat>, b: set<nat>)
    requires a <= b
    ensures |a| <= |b|
  {
    assert b == a + (b - a);
  }

  /** In-use and free records add up to the page. */
  lemma {:induction false} FreeCountIsComplement(s: seq<KeyRec>, used: set<nat>)
    requires forall i: nat :: i in used <==> i < |s| && s[i].inUse
    ensures FreeCount(s) + |used| == |s|
  {
    if s != [] {
      var n := |s| - 1;
      var rest := used - {n};
      assert forall i: nat :: i in rest <==> i < n && s[..n][i].inUse;
      FreeCountIsComplement(s[..n], rest);
      if s[n].inUse {
        assert used == rest + {n};
      } else {
        assert used == rest;
      }
    }
  }

  /** Balancing finds every record it turns about. */
  lemma NoPivotMissing(s: seq<KeyRec>, i: int, t: Tree)
    requires Shape(s, i, t) && Distinct(t) && |s| <= MAX_SLOTS
    ensures StoredFactor(t) == -2 && StoredFactor(t.right) == 1 ==> t.right.left.Node?
    ensures StoredFactor(t) == 2 && StoredFactor(t.left) == -1 ==> t.left.right.Node?
  {
    ShapeSlots(s, i, t);
    SlotsBoundHeight(t, |s|);
    PivotsExist(t);
  }

  // ---------- the records of one page, changed in place ----------

  class KeyRecords {
    const keys: array<KeyRec>
    var root: int
    var vcount: int
    ghost var tree: Tree

    ghost predicate Valid()
      reads this, keys
    {
      Holds(keys[..], root, vcount, tree)
    }

    /** Takes over the records of a page that stores tree t. */
    constructor (records: seq<KeyRec>, root: int, vcount: int, ghost t: Tree)
      requires Holds(records, root, vcount, t)
      ensures Valid() && fresh(keys)
      ensures keys[..] == records && this.root == root && this.vcount == vcount && tree == t
    {
      keys := new KeyRec[|records|](i requires 0 <= i < |records| => records[i]);
      this.root, this.vcount, tree := root, vcount, t;
      new;
      assert keys[..] == records;
    }

    /** Scans for a free record. */
    method GetFree() returns (idx: int)
      ensures idx == FirstFree(keys[..])
    {
      ghost var s := keys[..];
      idx := -1;
      var i := 0;
      while i < keys.Length
        invariant 0 <= i <= keys.Length
        invariant forall j :: 0 <= j < i ==> keys[j].inUse
        invariant idx == -1
      {
        if !keys[i].inUse {
          assert s[i] == keys[i] && !s[i].inUse;
          return i;
        }
        i := i + 1;
      }
      assert forall j :: 0 <= j < |s| ==> s[j].inUse;
    }

    method GetFreeCount() returns (count: int)
      ensures count == FreeCount(keys[..])
      ensures Valid() ==> count + vcount == keys.Length
    {
      ghost var s := keys[..];
      count := 0;
      var i := 0;
      while i < keys.Length
        invariant 0 <= i <= keys.Length
        invariant count == FreeCount(s[..i])
      {
        assert s[..i + 1][..i] == s[..i] && s[..i + 1][i] == keys[i];
        if !keys[i].inUse {
          count := count + 1;
        }
        i := i + 1;
      }
      assert s[..i] == s;
      if Valid() {
        ShapeSlots(s, root, tree);
        FreeCountIsComplement(s, Slots(tree));
      }
    }

    /** Fills a free record; -1 when there is none. */
    method GetKeyRecord(k: Key, v: int) returns (idx: int)
      modifies this`vcount, keys
      ensures idx == FirstFree(old(keys[..]))
      ensures idx == -1 ==> keys[..] == old(keys[..]) && vcount == old(vcount)
      ensures idx != -1 ==>
        && keys[..] == old(keys[..])[idx := KeyRec(true, 1, -1, -1, k, v)]
        && vcount == old(vcount) + 1
    {
      idx := GetFree();
      if idx >= 0 {
        keys[idx] := FREE_REC;
        keys[idx] := keys[idx].(inUse := true, key := k, voff := v);
        vcount := vcount + 1;
      }
    }

    method FreeKeyRecord(idx: int)
      requires 0 <= idx < keys.Length
      modifies this`vcount, keys
      ensures keys[..] == old(keys[..])[idx := FREE_REC] && vcount == old(vcount) - 1
    {
      keys[idx] := FREE_REC;
      vcount := vcount - 1;
    }

    // Assignments to one field of one record.

    method SetLeft(i: int, x: int)
      requires 0 <= i < keys.Length
      modifies keys
      ensures keys[..] == old(keys[..])[i := old(keys[..])[i].(left := x)]
    {
      keys[i] := keys[i].(left := x);
    }

    method SetRight(i: int, x: int)
      requires 0 <= i < keys.Length
      modifies keys
      ensures keys[..] == old(keys[..])[i := old(keys[..])[i].(right := x)]
    {
      keys[i] := keys[i].(right := x);
    }

    method StoredBalanceFactor(i: int, ghost t: Tree) returns (bf: int)
      requires Shape(keys[..], i, t)
      ensures bf == StoredFactor(t)
    {
      bf := 0;
      if i != -1 {
        StoredHeight(keys[..], keys[i].left, t.left);
        StoredHeight(keys[..], keys[i].right, t.right);
        var lh := if keys[i].left != -1 then keys[keys[i].left].height else 0;
        var rh := if keys[i].right != -1 then keys[keys[i].right].height else 0;
        bf := lh - rh;
      }
    }

    /** Brings the height stored at a node up to date. */
    method UpdateHeight(i: int, ghost t: Tree) returns (h: int)
      requires if i == -1 then t == Leaf else Linked(keys[..], i, t)
      requires Distinct(t)
      modifies keys
      ensures ToChar(h) == Stored(t)
      ensures Shape(keys[..], i, t)
      ensures SameBut(old(keys[..]), keys[..], {i})
    {
      h := 0;
      if i != -1 {
        ghost var s := keys[..];
        StoredHeight(s, keys[i].left, t.left);
        StoredHeight(s, keys[i].right, t.right);
        var lh := if keys[i].left != -1 then keys[keys[i].left].height else 0;
        var rh := if keys[i].right != -1 then keys[keys[i].right].height else 0;
        h := 1 + (if lh < rh then rh else lh);
        SetHeight(s, i, t);
        keys[i] := keys[i].(height := ToChar(h));
        assert keys[..] == s[i := s[i].(height := Stored(t))];
      }
    }

    method RelinkLeft(i: int, ghost t: Tree) returns (p: int)
      requires Linked(keys[..], i, t) && t.right.Node? && Distinct(t)
      modifies keys
      ensures PivotLeft(keys[..], p, t) && Linked(keys[..], i, AvlTree.RotateLeft(t).left)
      ensures SameBut(old(keys[..]), keys[..], {i, p})
    {
      RotateLeftLinks(keys[..], i, t);
      p := keys[i].right;
      SetRight(i, keys[p].left);
      SetLeft(p, i);
    }

    method RelinkRight(i: int, ghost t: Tree) returns (p: int)
      requires Linked(keys[..], i, t) && t.left.Node? && Distinct(t)
      modifies keys
      ensures PivotRight(keys[..], p, t) && Linked(keys[..], i, AvlTree.RotateRight(t).right)
      ensures SameBut(old(keys[..]), keys[..], {i, p})
    {
      RotateRightLinks(keys[..], i, t);
      p := keys[i].left;
      SetLeft(i, keys[p].right);
      SetRight(p, i);
    }

    method RotateLeft(i: int, ghost t: Tree) returns (p: int)
      requires Linked(keys[..], i, t) && t.right.Node? && Distinct(t)
      modifies keys
      ensures Shape(keys[..], p, AvlTree.RotateLeft(t))
      ensures SameBut(old(keys[..]), keys[..], Slots(t))
    {
      RotateLeftParts(t);
      p := RelinkLeft(i, t);
      ghost var s := keys[..];
      var _ := UpdateHeight(i, AvlTree.RotateLeft(t).left);
      RotateLeftFinish(s, keys[..], p, t);
      var _ := UpdateHeight(p, AvlTree.RotateLeft(t));
    }

    method RotateRight(i: int, ghost t: Tree) returns (p: int)
      requires Linked(keys[..], i, t) && t.left.Node? && Distinct(t)
      modifies keys
      ensures Shape(keys[..], p, AvlTree.RotateRight(t))
      ensures SameBut(old(keys[..]), keys[..], Slots(t))
    {
      RotateRightParts(t);
      p := RelinkRight(i, t);
      ghost var s := keys[..];
      var _ := UpdateHeight(i, AvlTree.RotateRight(t).right);
      RotateRightFinish(s, keys[..], p, t);
      var _ := UpdateHeight(p, AvlTree.RotateRight(t));
    }

    method RotateLeftRight(i: int, ghost t: Tree) returns (p: int)
      requires Linked(keys[..], i, t) && t.left.Node? && t.left.right.Node? && Distinct(t)
      modifies keys
      ensures Shape(keys[..], p, AvlTree.RotateLeftRight(t))
      ensures SameBut(old(keys[..]), keys[..], Slots(t))
    {
      ghost var s := keys[..];
      DistinctParts(t);
      RotateLeftKeeps(t.left);
      ghost var l := AvlTree.RotateLeft(t.left);
      var q := RotateLeft(keys[i].left, t.left);
      ReplaceLeft(s, keys[..], i, t, l, q, Slots(t.left));
      SetLeft(i, q);
      p := RotateRight(i, t.(left := l));
    }

    method RotateRightLeft(i: int, ghost t: Tree) returns (p: int)
      requires Linked(keys[..], i, t) && t.right.Node? && t.right.left.Node? && Distinct(t)
      modifies keys
      ensures Shape(keys[..], p, AvlTree.RotateRightLeft(t))
      ensures SameBut(old(keys[..]), keys[..], Slots(t))
    {
      ghost var s := keys[..];
      DistinctParts(t);
      RotateRightKeeps(t.right);
      ghost var r := AvlTree.RotateRight(t.right);
      var q := RotateRight(keys[i].right, t.right);
      ReplaceRight(s, keys[..], i, t, r, q, Slots(t.right));
      SetRight(i, q);
      p := RotateLeft(i, t.(right := r));
    }

    /** One balancing step at a node. */
    method BalanceTree(i: int, ghost t: Tree) returns (p: int)
      requires Shape(keys[..], i, t) && Distinct(t) && keys.Length <= MAX_SLOTS
      modifies keys
      ensures Shape(keys[..], p, Balance(t))
      ensures SameBut(old(keys[..]), keys[..], Slots(t))
    {
      p := i;
      NoPivotMissing(keys[..], i, t);
      var bf := StoredBalanceFactor(i, t);
      if bf == -2 {
        bf := StoredBalanceFactor(keys[i].right, t.right);
        if bf == -1 {
          p := RotateLeft(i, t);
        } else if bf == 1 {
          p := RotateRightLeft(i, t);
        }
      } else if bf == 2 {
        bf := StoredBalanceFactor(keys[i].left, t.left);
        if bf == -1 {
          p := RotateLeftRight(i, t);
        } else if bf == 1 {
          p := RotateRight(i, t);
        }
      }
    }

    /** Height update and balancing at a node whose links are right, or at no node. */
    method Settle(i: int, ghost m: Tree) returns (p: int)
      requires if i == -1 then m == Leaf else Linked(keys[..], i, m)
      requires Distinct(m) && keys.Length <= MAX_SLOTS
      modifies keys
      ensures Shape(keys[..], p, Balance(m))
      ensures SameBut(old(keys[..]), keys[..], Slots(m))
    {
      var _ := UpdateHeight(i, m);
      p := BalanceTree(i, m);
    }

    /** Hangs a changed subtree on the left of node i and settles the node. */
    method HangLeft(i: int, q: int, ghost s: seq<KeyRec>, ghost t: Tree, ghost l: Tree,
                    ghost changed: set<int>) returns (p: int)
      requires LeftReady(s, keys[..], i, t, l, q, changed)
      requires Distinct(t.(left := l)) && keys.Length <= MAX_SLOTS
      modifies keys
      ensures Shape(keys[..], p, Balance(t.(left := l)))
      ensures SameBut(old(keys[..]), keys[..], Slots(t.(left := l)))
      ensures SameBut(s, keys[..], changed + Slots(t.(left := l)))
    {
      ReplaceLeft(s, keys[..], i, t, l, q, changed);
      SetLeft(i, q);
      p := Settle(i, t.(left := l));
    }

    /** Hangs a changed subtree on the right of node i and settles the node. */
    method HangRight(i: int, q: int, ghost s: seq<KeyRec>, ghost t: Tree, ghost r: Tree,
                     ghost changed: set<int>) returns (p: int)
      requires RightReady(s, keys[..], i, t, r, q, changed)
      requires Distinct(t.(right := r)) && keys.Length <= MAX_SLOTS
      modifies keys
      ensures Shape(keys[..], p, Balance(t.(right := r)))
      ensures SameBut(old(keys[..]), keys[..], Slots(t.(right := r)))
      ensures SameBut(s, keys[..], changed + Slots(t.(right := r)))
    {
      ReplaceRight(s, keys[..], i, t, r, q, changed);
      SetRight(i, q);
      p := Settle(i, t.(right := r));
    }

    /** Inserts below node i; refines insertion into the tree stored there. */
    method PutBelow(i: int, k: Key, v: int, ghost t: Tree) returns (p: int, idx: int)
      requires Shape(keys[..], i, t) && Distinct(t) && keys.Length <= MAX_SLOTS
      modifies this`vcount, keys
      ensures PutDone(old(keys[..]), keys[..], p, idx, t, k, v)
      ensures vcount == old(vcount) + Gain(old(keys[..]), t, k)
      decreases t, 1
    {
      hide Balance, Distinct;
      if i == -1 {
        idx := GetKeyRecord(k, v);
        p := idx;
      } else {
        var cmp := KeyCmp(k, keys[i].key);
        if cmp < 0 {
          p, idx := PutLeft(i, k, v, t);
        } else if cmp == 0 {
          idx := i;
          BalanceKeepsSlots(t.(voff := v));
          PutHere(i, v, t);
          p := Settle(i, t.(voff := v));
        } else {
          p, idx := PutRight(i, k, v, t);
        }
      }
    }

    method PutLeft(i: int, k: Key, v: int, ghost t: Tree) returns (p: int, idx: int)
      requires Shape(keys[..], i, t) && Distinct(t) && keys.Length <= MAX_SLOTS
      requires t.Node? && KeyCmp(k, t.key) < 0
      modifies this`vcount, keys
      ensures PutDone(old(keys[..]), keys[..], p, idx, t, k, v)
      ensures vcount == old(vcount) + Gain(old(keys[..]), t, k)
      decreases t, 0
    {
      ghost var s := keys[..];
      ghost var free := FirstFree(s);
      PutBelowLeft(s, i, t, k, v, free);
      var q;
      q, idx := PutBelow(keys[i].left, k, v, t.left);
      ghost var l := AvlTree.Put(t.left, k, v, free);
      p := HangLeft(i, q, s, t, l, Slots(l));
    }

    method PutRight(i: int, k: Key, v: int, ghost t: Tree) returns (p: int, idx: int)
      requires Shape(keys[..], i, t) && Distinct(t) && keys.Length <= MAX_SLOTS
      requires t.Node? && KeyCmp(k, t.key) > 0
      modifies this`vcount, keys
      ensures PutDone(old(keys[..]), keys[..], p, idx, t, k, v)
      ensures vcount == old(vcount) + Gain(old(keys[..]), t, k)
      decreases t, 0
    {
      ghost var s := keys[..];
      ghost var free := FirstFree(s);
      PutBelowRight(s, i, t, k, v, free);
      var q;
      q, idx := PutBelow(keys[i].right, k, v, t.right);
      ghost var r := AvlTree.Put(t.right, k, v, free);
      p := HangRight(i, q, s, t, r, Slots(r));
    }

    /** Overwrites the value offset of a key that is already there. */
    method PutHere(i: int, v: int, ghost t: Tree)
      requires Shape(keys[..], i, t) && t.Node? && Distinct(t)
      modifies keys
      ensures Linked(keys[..], i, t.(voff := v)) && Distinct(t.(voff := v))
      ensures SameBut(old(keys[..]), keys[..], {i})
    {
      ghost var s := keys[..];
      DistinctParts(t);
      ShapeSlots(s, i, t);
      keys[i] := keys[i].(voff := v);
      ShapeFrameTwo(s, keys[..], s[i].left, t.left, i, i);
      ShapeFrameTwo(s, keys[..], s[i].right, t.right, i, i);
    }

    /** The slot of the largest key. */
    method MaxKey(i: int, ghost t: Tree) returns (m: int)
      requires Shape(keys[..], i, t) && t.Node?
      ensures m == MaxNode(t).slot && m < keys.Length
      ensures keys[m].key == MaxNode(t).key && keys[m].voff == MaxNode(t).voff
      decreases t
    {
      if keys[i].right != -1 {
        m := MaxKey(keys[i].right, t.right);
      } else {
        m := i;
      }
    }

    /** Frees node i, whose only subtree u hangs from q, and settles u in its place. */
    method Unlink(i: int, q: int, ghost t: Tree, ghost u: Tree) returns (p: int)
      requires Shape(keys[..], i, t) && t.Node? && Distinct(t) && keys.Length <= MAX_SLOTS
      requires (u == t.left && q == keys[i].left) || (u == t.right && q == keys[i].right)
      modifies this`vcount, keys
      ensures RemoveDone(old(keys[..]), keys[..], p, i, t, Balance(u))
      ensures vcount == old(vcount) - 1
    {
      hide Balance, Stored;
      ghost var s := keys[..];
      DistinctParts(t);
      FreeKeyRecord(i);
      ShapeFrameTwo(s, keys[..], q, u, i, i);
      p := Settle(q, u);
    }

    method RemoveMaxBelow(i: int, ghost t: Tree) returns (p: int, idx: int)
      requires Shape(keys[..], i, t) && t.Node? && Distinct(t) && keys.Length <= MAX_SLOTS
      modifies this`vcount, keys
      ensures RemoveDone(old(keys[..]), keys[..], p, idx, t, RemoveMax(t)) && idx == MaxNode(t).slot
      ensures vcount == old(vcount) - 1
      decreases t, 1
    {
      hide Balance, Stored, Distinct, SameBut, Slots;
      if keys[i].right == -1 {
        idx := i;
        p := Unlink(i, keys[i].left, t, t.left);
      } else {
        p, idx := RemoveMaxRight(i, t);
      }
    }

    method RemoveMaxRight(i: int, ghost t: Tree) returns (p: int, idx: int)
      requires Shape(keys[..], i, t) && t.Node? && Distinct(t) && keys.Length <= MAX_SLOTS
      requires t.right.Node?
      modifies this`vcount, keys
      ensures RemoveDone(old(keys[..]), keys[..], p, idx, t, RemoveMax(t)) && idx == MaxNode(t).slot
      ensures vcount == old(vcount) - 1
      decreases t, 0
    {
      ghost var s := keys[..];
      ghost var r := RemoveMax(t.right);
      DistinctParts(t);
      RemoveMaxSlots(t.right);
      ShrunkBelowRight(t, r, MaxNode(t.right).slot);
      var q;
      q, idx := RemoveMaxBelow(keys[i].right, t.right);
      p := HangRight(i, q, s, t, r, Slots(t.right));
    }

    /** Removes below node i; refines removal from the tree stored there. */
    method RemoveBelow(i: int, k: Key, ghost t: Tree) returns (p: int, idx: int)
      requires Shape(keys[..], i, t) && Distinct(t) && keys.Length <= MAX_SLOTS
      modifies this`vcount, keys
      ensures RemoveDone(old(keys[..]), keys[..], p, idx, t, AvlTree.Remove(t, k)) && idx == FreedSlot(t, k)
      ensures vcount == old(vcount) - (if Lookup(t, k).Some? then 1 else 0)
      decreases t, 1
    {
      hide Balance, Stored, Distinct;
      p, idx := i, -1;
      if i != -1 {
        var cmp := KeyCmp(k, keys[i].key);
        if cmp < 0 {
          p, idx := RemoveLeft(i, k, t);
        } else if cmp == 0 {
          if keys[i].left == -1 {
            idx := i;
            p := Unlink(i, keys[i].right, t, t.right);
          } else if keys[i].right == -1 {
            idx := i;
            p := Unlink(i, keys[i].left, t, t.left);
          } else {
            p, idx := RemoveHere(i, k, t);
          }
        } else {
          p, idx := RemoveRight(i, k, t);
        }
      }
    }

    method RemoveLeft(i: int, k: Key, ghost t: Tree) returns (p: int, idx: int)
      requires Shape(keys[..], i, t) && Distinct(t) && keys.Length <= MAX_SLOTS
      requires t.Node? && KeyCmp(k, t.key) < 0
      modifies this`vcount, keys
      ensures RemoveDone(old(keys[..]), keys[..], p, idx, t, AvlTree.Remove(t, k)) && idx == FreedSlot(t, k)
      ensures vcount == old(vcount) - (if Lookup(t, k).Some? then 1 else 0)
      decreases t, 0
    {
      ghost var s := keys[..];
      ghost var l := AvlTree.Remove(t.left, k);
      DistinctParts(t);
      RemoveSlots(t.left, k);
      RemoveDistinct(t.left, k);
      ShrunkBelowLeft(t, l, FreedSlot(t.left, k));
      var q;
      q, idx := RemoveBelow(keys[i].left, k, t.left);
      p := HangLeft(i, q, s, t, l, Slots(t.left));
    }

    method RemoveRight(i: int, k: Key, ghost t: Tree) returns (p: int, idx: int)
      requires Shape(keys[..], i, t) && Distinct(t) && keys.Length <= MAX_SLOTS
      requires t.Node? && KeyCmp(k, t.key) > 0
      modifies this`vcount, keys
      ensures RemoveDone(old(keys[..]), keys[..], p, idx, t, AvlTree.Remove(t, k)) && idx == FreedSlot(t, k)
      ensures vcount == old(vcount) - (if Lookup(t, k).Some? then 1 else 0)
      decreases t, 0
    {
      ghost var s := keys[..];
      ghost var r := AvlTree.Remove(t.right, k);
      DistinctParts(t);
      RemoveSlots(t.right, k);
      RemoveDistinct(t.right, k);
      ShrunkBelowRight(t, r, FreedSlot(t.right, k));
      var q;
      q, idx := RemoveBelow(keys[i].right, k, t.right);
      p := HangRight(i, q, s, t, r, Slots(t.right));
    }

    /** A node with two children takes over its predecessor's key and value offset; the
        predecessor's slot is the one that is freed. */
    method RemoveHere(i: int, k: Key, ghost t: Tree) returns (p: int, idx: int)
      requires Shape(keys[..], i, t) && Distinct(t) && keys.Length <= MAX_SLOTS
      requires t.Node? && KeyCmp(k, t.key) == 0 && t.left.Node? && t.right.Node?
      modifies this`vcount, keys
      ensures RemoveDone(old(keys[..]), keys[..], p, idx, t, AvlTree.Remove(t, k)) && idx == FreedSlot(t, k)
      ensures vcount == old(vcount) - 1
    {
      ghost var l := RemoveMax(t.left);
      DistinctParts(t);
      RemoveMaxSlots(t.left);
      ShrunkBelowLeft(t, l, MaxNode(t.left).slot);
      ghost var t' := TakeOverMax(i, t);
      ghost var s := keys[..];
      var q;
      q, idx := RemoveMaxBelow(keys[i].left, t.left);
      ShrunkBelowLeft(t', l, idx);
      p := HangLeft(i, q, s, t', l, Slots(t.left));
    }

    method TakeOverMax(i: int, ghost t: Tree) returns (ghost t': Tree)
      requires Shape(keys[..], i, t) && Distinct(t) && t.Node? && t.left.Node?
      modifies keys
      ensures t' == t.(key := MaxNode(t.left).key, voff := MaxNode(t.left).voff)
      ensures Linked(keys[..], i, t') && Distinct(t')
      ensures SameBut(old(keys[..]), keys[..], {i})
    {
      ghost var s := keys[..];
      DistinctParts(t);
      var m := MaxKey(keys[i].left, t.left);
      keys[i] := keys[i].(key := keys[m].key, voff := keys[m].voff);
      t' := t.(key := MaxNode(t.left).key, voff := MaxNode(t.left).voff);
      ShapeFrameTwo(s, keys[..], s[i].left, t.left, i, i);
      ShapeFrameTwo(s, keys[..], s[i].right, t.right, i, i);
    }

    // ---------- the operations on a whole page ----------

    /** Finds a key in at most as many comparisons as the page is high. */
    method Get(k: Key) returns (idx: int, ghost steps: nat)
      requires Valid()
      ensures idx == Search(tree, k)
      ensures idx == -1 <==> k !in Entries(tree)
      ensures idx != -1 ==> 0 <= idx < keys.Length && keys[idx].key == k && keys[idx].voff == Entries(tree)[k]
      ensures steps <= Height(tree)
    {
      ghost var t := tree;
      idx := root;
      steps := 0;
      GetOutcome(keys[..], root, tree, k);
      while idx != -1
        invariant Shape(keys[..], idx, t)
        invariant Search(t, k) == Search(tree, k)
        invariant steps + Height(t) <= Height(tree)
        decreases t
      {
        steps := steps + 1;
        var cmp := KeyCmp(k, keys[idx].key);
        if cmp < 0 {
          idx, t := keys[idx].left, t.left;
        } else if cmp == 0 {
          break;
        } else {
          idx, t := keys[idx].right, t.right;
        }
      }
    }

    /** Adds a key or changes its value offset. */
    method Put(k: Key, v: int) returns (idx: int)
      requires Valid()
      modifies this, keys
      ensures Valid()
      ensures tree == AvlTree.Put(old(tree), k, v, FirstFree(old(keys[..])))
      ensures idx == -1 <==> old(vcount) == keys.Length && k !in old(Entries(tree))
      ensures Entries(tree) == if idx == -1 then old(Entries(tree)) else old(Entries(tree))[k := v]
      ensures idx != -1 ==> 0 <= idx < keys.Length && keys[idx].key == k && keys[idx].voff == v
      ensures vcount == old(vcount) + (if k in old(Entries(tree)) || idx == -1 then 0 else 1)
      ensures Balanced(old(tree)) ==> Balanced(tree)
      ensures idx == -1 ==> (keys[..] == old(keys[..]) && root == old(root) <==> PathSettled(old(tree), k))
    {
      ghost var s, t := keys[..], tree;
      var p;
      p, idx := PutBelow(root, k, v, tree);
      HoldsAfterPut(s, keys[..], root, old(vcount), p, idx, t, k, v);
      FullPage(s, root, old(vcount), t);
      ShapeSlots(s, root, t);
      SlotsBoundHeight(t, |s|);
      if FirstFree(s) == -1 && k !in Entries(t) {
        FullPutUnchanged(s, keys[..], root, old(vcount), p, idx, t, k, v);
      }
      root := p;
      tree := AvlTree.Put(t, k, v, FirstFree(s));
      PutOutcome(s, keys[..], p, idx, t, k, v);
    }

    /** Removes a key. */
    method Remove(k: Key) returns (idx: int)
      requires Valid()
      modifies this, keys
      ensures Valid()
      ensures tree == AvlTree.Remove(old(tree), k)
      ensures -1 <= idx < keys.Length
      ensures idx == -1 <==> k !in old(Entries(tree))
      ensures Entries(tree) == old(Entries(tree)) - {k}
      ensures vcount == old(vcount) - (if k in old(Entries(tree)) then 1 else 0)
      ensures idx == Search(old(tree), k) <==> !HasTwoChildren(old(tree), k)
      ensures Balanced(old(tree)) ==> (Balanced(tree) <==> RemoveEffect(old(tree), k) != Stuck)
      ensures idx == -1 ==> (keys[..] == old(keys[..]) && root == old(root) <==> PathSettled(old(tree), k))
    {
      ghost var s, t := keys[..], tree;
      if Balanced(t) {
        ShapeSlots(s, root, t);
        SlotsBoundHeight(t, |s|);
        BalancedHeightBound(t);
        RemoveKeepsBalance(t, k);
      }
      var p;
      p, idx := RemoveBelow(root, k, tree);
      HoldsAfterRemove(s, keys[..], root, old(vcount), p, t, k);
      if k !in Entries(t) { MissedRemoveUnchanged(s, keys[..], root, old(vcount), p, t, k); }
      root := p;
      tree := AvlTree.Remove(t, k);
      RemoveOutcome(t, k);
    }
  }
}

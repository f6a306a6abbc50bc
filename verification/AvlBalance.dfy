/** Heights and balance of the tree a key page stores: when stored heights are the true ones, what
    insertion and removal do to AVL balance, and that balancing never reaches for a missing child. */
module AvlBalance {
  import opened Options
  import opened KeyOrder
  import opened AvlTree

  // ---------- stored heights ----------

  /** A record stores its true height exactly when that is at most 127. */
  lemma {:induction false} StoredIsHeight(t: Tree)
    ensures Stored(t) == Height(t) <==> Height(t) <= MAX_CHAR
  {
    if t.Node? {
      StoredIsHeight(t.left);
      StoredIsHeight(t.right);
    }
  }

  /** The stored heights of a tree and all its subtrees are true. */
  ghost predicate HeightsTrue(t: Tree) {
    Stored(t) == Height(t) && (t.Node? ==> HeightsTrue(t.left) && HeightsTrue(t.right))
  }

  lemma {:induction false} HeightsTrueExactly(t: Tree)
    ensures HeightsTrue(t) <==> Height(t) <= MAX_CHAR
  {
    StoredIsHeight(t);
    if t.Node? {
      HeightsTrueExactly(t.left);
      HeightsTrueExactly(t.right);
    }
  }

  lemma FactorsTrue(t: Tree)
    requires Height(t) <= MAX_CHAR
    ensures StoredFactor(t) == BalanceFactor(t)
    ensures t.Node? ==> StoredFactor(t.left) == BalanceFactor(t.left) && StoredFactor(t.right) == BalanceFactor(t.right)
  {
    hide Stored;
    if t.Node? {
      StoredIsHeight(t.left);
      StoredIsHeight(t.right);
      if t.left.Node? {
        StoredIsHeight(t.left.left);
        StoredIsHeight(t.left.right);
      }
      if t.right.Node? {
        StoredIsHeight(t.right.left);
        StoredIsHeight(t.right.right);
      }
    }
  }

  /** The fewest records below and including one that stores h. */
  function Fewest(h: int): int { if h > 0 then h else 128 + 129 * (h + 128) }

  /** Negative heights are rare: a wrapped height rises again only where both children have wrapped. */
  lemma {:induction false} StoredIsLarge(t: Tree)
    ensures t.Node? ==> Size(t) >= Fewest(Stored(t))
  {
    if t.Node? {
      StoredIsLarge(t.left);
      StoredIsLarge(t.right);
      var m := Max(Stored(t.left), Stored(t.right));
      assert Stored(t) == if m == MAX_CHAR then -128 else m + 1;
    }
  }

  /** A tree of height 127 without branches, below a given record. */
  function Stick(n: nat): (t: Tree) {
    if n == 0 then Leaf else Node(Stick(n - 1), 0, [], 0, Leaf)
  }

  /** Fewest is attained: from -128 up, each step needs one more tree that stores -128. */
  function Wrapped(h: int): (t: Tree)
    requires -128 <= h <= -1
    decreases h + 128
  {
    if h == -128 then Node(Stick(127), 0, [], 0, Leaf) else Node(Wrapped(h - 1), 0, [], 0, Wrapped(-128))
  }

  lemma {:induction false} StickStores(n: nat)
    requires n <= MAX_CHAR
    ensures Stored(Stick(n)) == n == Size(Stick(n))
  {
    if n > 0 { StickStores(n - 1); }
  }

  lemma WrapsAtStick()
    ensures Stored(Wrapped(-128)) == -128 && Size(Wrapped(-128)) == 128
  {
    StickStores(127);
    hide Stick;
  }

  lemma {:induction false} FewestAttained(h: int)
    requires -128 <= h <= -1
    ensures Stored(Wrapped(h)) == h && Size(Wrapped(h)) == Fewest(h)
    decreases h + 128
  {
    hide Stick, Stored, Size;
    WrapsAtStick();
    if h > -128 {
      FewestAttained(h - 1);
      WrapStep(Wrapped(h - 1), Wrapped(-128));
    }
  }

  lemma WrapStep(a: Tree, b: Tree)
    requires -128 <= Stored(a) <= -2 && Stored(b) == -128
    ensures Stored(Node(a, 0, [], 0, b)) == Stored(a) + 1 && Size(Node(a, 0, [], 0, b)) == Size(a) + 1 + Size(b)
  {
  }

  /** The inner child that a double rotation turns about is there in every tree a page has room for:
      without it two subtrees would store -1, and that takes more than 33000 records. */
  lemma PivotsExist(t: Tree)
    requires Size(t) <= MAX_SLOTS
    ensures StoredFactor(t) == -2 && StoredFactor(t.right) == 1 ==> t.right.left.Node?
    ensures StoredFactor(t) == 2 && StoredFactor(t.left) == -1 ==> t.left.right.Node?
  {
    if StoredFactor(t) == -2 && StoredFactor(t.right) == 1 {
      StoredIsLarge(t.left);
      StoredIsLarge(t.right.right);
    } else if StoredFactor(t) == 2 && StoredFactor(t.left) == -1 {
      StoredIsLarge(t.right);
      StoredIsLarge(t.left.left);
    }
  }

  // ---------- balancing by true heights ----------

  /** The balancing step that true heights would lead to. */
  function ByHeight(t: Tree): Tree {
    var bf := BalanceFactor(t);
    if bf == -2 then
      var cf := BalanceFactor(t.right);
      if cf == -1 then RotateLeft(t)
      else if cf == 1 then RotateRightLeft(t)
      else t
    else if bf == 2 then
      var cf := BalanceFactor(t.left);
      if cf == -1 then RotateLeftRight(t)
      else if cf == 1 then RotateRight(t)
      else t
    else t
  }

  lemma BalanceIsByHeight(t: Tree)
    requires Height(t) <= MAX_CHAR
    ensures Balance(t) == ByHeight(t)
  {
    FactorsTrue(t);
    hide StoredFactor, RotateLeft, RotateRight, RotateLeftRight, RotateRightLeft;
  }

  lemma {:induction false} BalanceRight(t: Tree)
    requires t.Node? && Balanced(t.left) && Balanced(t.right)
    requires BalanceFactor(t) == -2 && BalanceFactor(t.right) != 0
    ensures Balanced(ByHeight(t)) && BalanceFactor(ByHeight(t)) == 0
    ensures Height(ByHeight(t)) == Height(t) - 1
  {
    var p := t.right;
    if BalanceFactor(p) == 1 {
      var q := p.left;
      var a := Node(t.left, t.slot, t.key, t.voff, q.left);
      var b := Node(q.right, p.slot, p.key, p.voff, p.right);
      assert ByHeight(t) == Node(a, q.slot, q.key, q.voff, b);
      assert Balanced(a) && Balanced(b) && Height(a) == Height(b) == Height(t) - 2;
    } else {
      var a := Node(t.left, t.slot, t.key, t.voff, p.left);
      assert ByHeight(t) == Node(a, p.slot, p.key, p.voff, p.right);
      assert Balanced(a) && Height(a) == Height(p.right) == Height(t) - 2;
    }
  }

  lemma {:induction false} BalanceLeft(t: Tree)
    requires t.Node? && Balanced(t.left) && Balanced(t.right)
    requires BalanceFactor(t) == 2 && BalanceFactor(t.left) != 0
    ensures Balanced(ByHeight(t)) && BalanceFactor(ByHeight(t)) == 0
    ensures Height(ByHeight(t)) == Height(t) - 1
  {
    var p := t.left;
    if BalanceFactor(p) == -1 {
      var q := p.right;
      var a := Node(p.left, p.slot, p.key, p.voff, q.left);
      var b := Node(q.right, t.slot, t.key, t.voff, t.right);
      assert ByHeight(t) == Node(a, q.slot, q.key, q.voff, b);
      assert Balanced(a) && Balanced(b) && Height(a) == Height(b) == Height(t) - 2;
    } else {
      var b := Node(p.right, t.slot, t.key, t.voff, t.right);
      assert ByHeight(t) == Node(p.left, p.slot, p.key, p.voff, b);
      assert Balanced(b) && Height(b) == Height(p.left) == Height(t) - 2;
    }
  }

  lemma {:induction false} BalanceOnce(t: Tree)
    requires t.Node? && Balanced(t.left) && Balanced(t.right)
    requires BalanceFactor(t) == 2 ==> BalanceFactor(t.left) != 0
    requires BalanceFactor(t) == -2 ==> BalanceFactor(t.right) != 0
    requires -2 <= BalanceFactor(t) <= 2
    ensures Balanced(ByHeight(t))
    ensures Height(ByHeight(t)) == if -1 <= BalanceFactor(t) <= 1 then Height(t) else Height(t) - 1
    ensures -1 <= BalanceFactor(t) <= 1 ==> ByHeight(t) == t
  {
    if BalanceFactor(t) == -2 {
      BalanceRight(t);
    } else if BalanceFactor(t) == 2 {
      BalanceLeft(t);
    }
  }

  /** What insertion does to a balanced tree. */
  ghost predicate Grown(t: Tree, u: Tree) {
    && Balanced(u)
    && Height(t) <= Height(u) <= Height(t) + 1
    && (Height(u) > Height(t) && t.Node? ==> BalanceFactor(u) != 0)
  }

  lemma {:induction false} GrownLeft(t: Tree, l: Tree)
    requires t.Node? && Balanced(t) && Grown(t.left, l) && Height(t) < MAX_CHAR
    ensures Grown(t, Balance(t.(left := l)))
  {
    BalanceIsByHeight(t.(left := l));
    BalanceOnce(t.(left := l));
  }

  lemma {:induction false} GrownRight(t: Tree, r: Tree)
    requires t.Node? && Balanced(t) && Grown(t.right, r) && Height(t) < MAX_CHAR
    ensures Grown(t, Balance(t.(right := r)))
  {
    BalanceIsByHeight(t.(right := r));
    BalanceOnce(t.(right := r));
  }

  /** Insertion keeps the tree balanced and raises its height by at most one, as long as heights can
      be stored; in a page they can (BalancedHeightBound). */
  lemma {:induction false} PutKeepsBalance(t: Tree, k: Key, v: int, free: int)
    requires Balanced(t) && free >= -1 && Height(t) < MAX_CHAR
    ensures Grown(t, Put(t, k, v, free))
  {
    if t.Node? {
      var cmp := KeyCmp(k, t.key);
      if cmp < 0 {
        PutKeepsBalance(t.left, k, v, free);
        GrownLeft(t, Put(t.left, k, v, free));
      } else if cmp == 0 {
        BalanceIsByHeight(t.(voff := v));
        assert ByHeight(t.(voff := v)) == t.(voff := v);
      } else {
        PutKeepsBalance(t.right, k, v, free);
        GrownRight(t, Put(t.right, k, v, free));
      }
    }
  }

  /** Every node on the search path of k is one that balancing leaves alone. */
  predicate PathSettled(t: Tree, k: Key) {
    t.Node? ==>
      && Balance(t) == t
      && (KeyCmp(k, t.key) < 0 ==> PathSettled(t.left, k))
      && (KeyCmp(k, t.key) > 0 ==> PathSettled(t.right, k))
  }

  lemma {:induction false} BalanceMovesRoot(t: Tree)
    requires t.Node? && Distinct(t) && Balance(t) != t
    ensures Balance(t).Node? && Balance(t).slot != t.slot
  {
    DistinctParts(t);
  }

  /** A new key that finds no room leaves the tree as it was exactly when its search path is
      settled; otherwise the failed attempt still rotates. */
  lemma {:induction false} PutWithoutRoom(t: Tree, k: Key, v: int)
    requires Distinct(t) && Lookup(t, k).None?
    ensures Put(t, k, v, -1) == t <==> PathSettled(t, k)
  {
    if t.Node? {
      DistinctParts(t);
      var cmp := KeyCmp(k, t.key);
      if cmp < 0 {
        PutWithoutRoom(t.left, k, v);
        PutSlots(t.left, k, v, -1);
        var m := t.(left := Put(t.left, k, v, -1));
        DistinctParts(m);
        if Balance(m) != m { BalanceMovesRoot(m); }
      } else {
        PutWithoutRoom(t.right, k, v);
        PutSlots(t.right, k, v, -1);
        var m := t.(right := Put(t.right, k, v, -1));
        DistinctParts(m);
        if Balance(m) != m { BalanceMovesRoot(m); }
      }
    }
  }

  /** A removal that does not find its key does what a refused insertion does. */
  lemma {:induction false} RemoveAbsent(t: Tree, k: Key, v: int)
    requires Lookup(t, k).None?
    ensures Remove(t, k) == Put(t, k, v, -1)
  {
    if t.Node? {
      var cmp := KeyCmp(k, t.key);
      if cmp < 0 {
        RemoveAbsent(t.left, k, v);
      } else {
        RemoveAbsent(t.right, k, v);
      }
    }
  }

  /** It leaves the tree as it was exactly when the search path is settled. */
  lemma RemoveWithoutKey(t: Tree, k: Key)
    requires Distinct(t) && Lookup(t, k).None?
    ensures Remove(t, k) == t <==> PathSettled(t, k)
  {
    RemoveAbsent(t, k, 0);
    PutWithoutRoom(t, k, 0);
  }

  lemma {:induction false} BalancedIsSettled(t: Tree, k: Key)
    requires Balanced(t) && Height(t) <= MAX_CHAR
    ensures PathSettled(t, k)
  {
    if t.Node? {
      BalanceIsByHeight(t);
      BalancedIsSettled(t.left, k);
      BalancedIsSettled(t.right, k);
    }
  }

  /** The number of nodes whose balance factor is outside [-1, 1]. */
  function Unbalanced(t: Tree): nat {
    if t.Leaf? then 0
    else Unbalanced(t.left) + Unbalanced(t.right) + (if -1 <= BalanceFactor(t) <= 1 then 0 else 1)
  }

  ghost predicate FactorsWithin(t: Tree, n: nat) {
    t.Node? ==> FactorsWithin(t.left, n) && FactorsWithin(t.right, n) && -(n as int) <= BalanceFactor(t) <= n
  }

  lemma {:induction false} BalancedMeansNone(t: Tree)
    ensures Balanced(t) <==> Unbalanced(t) == 0
    ensures Balanced(t) <==> FactorsWithin(t, 1)
    ensures Balanced(t) ==> FactorsWithin(t, 2)
  {
    if t.Node? {
      BalancedMeansNone(t.left);
      BalancedMeansNone(t.right);
    }
  }

  // ---------- removal ----------

  /** What a removal does to a balanced subtree: nothing to its height, one less, or it leaves a node
      out of balance that balancing does not mend. */
  datatype Effect = Same | Lower | Stuck

  /** The effect at a node whose left subtree had effect e: only where that subtree got lower, the
      right one was the higher already and leans neither way is balancing stuck. */
  function FromLeft(t: Tree, e: Effect): Effect {
    if e != Lower || BalanceFactor(t) == 0 then (if e == Stuck then Stuck else Same)
    else if BalanceFactor(t) == -1 && BalanceFactor(t.right) == 0 then Stuck
    else Lower
  }

  function FromRight(t: Tree, e: Effect): Effect {
    if e != Lower || BalanceFactor(t) == 0 then (if e == Stuck then Stuck else Same)
    else if BalanceFactor(t) == 1 && BalanceFactor(t.left) == 0 then Stuck
    else Lower
  }

  function RemoveMaxEffect(t: Tree): Effect
    requires t.Node?
  {
    if t.right.Leaf? then Lower else FromRight(t, RemoveMaxEffect(t.right))
  }

  /** The effect of a removal, read off the search path before the call. */
  function RemoveEffect(t: Tree, k: Key): Effect {
    if t.Leaf? then Same
    else
      var cmp := KeyCmp(k, t.key);
      if cmp < 0 then FromLeft(t, RemoveEffect(t.left, k))
      else if cmp > 0 then FromRight(t, RemoveEffect(t.right, k))
      else if t.left.Leaf? || t.right.Leaf? then Lower
      else FromLeft(t, RemoveMaxEffect(t.left))
  }

  /** Tree u is what effect e leaves of a balanced tree of height h. */
  ghost predicate Shrunk(u: Tree, h: nat, e: Effect) {
    && Height(u) == (if e == Lower then h - 1 else h)
    && Unbalanced(u) == (if e == Stuck then 1 else 0)
    && FactorsWithin(u, if e == Stuck then 2 else 1)
  }

  /** A balancing step that succeeds, or has nothing to do. */
  lemma Mended(m: Tree)
    requires m.Node? && Balanced(m.left) && Balanced(m.right) && Height(m) <= MAX_CHAR
    requires -2 <= BalanceFactor(m) <= 2
    requires BalanceFactor(m) == 2 ==> BalanceFactor(m.left) != 0
    requires BalanceFactor(m) == -2 ==> BalanceFactor(m.right) != 0
    ensures Unbalanced(Balance(m)) == 0 && FactorsWithin(Balance(m), 1)
    ensures Height(Balance(m)) == if -1 <= BalanceFactor(m) <= 1 then Height(m) else Height(m) - 1
  {
    hide Balance, ByHeight, Unbalanced, FactorsWithin;
    BalanceIsByHeight(m);
    BalanceOnce(m);
    BalancedMeansNone(ByHeight(m));
  }

  /** A balancing step that does nothing. */
  lemma Unmended(m: Tree)
    requires m.Node? && Height(m) <= MAX_CHAR
    requires -1 <= BalanceFactor(m) <= 1 || (BalanceFactor(m) == 2 && BalanceFactor(m.left) == 0)
      || (BalanceFactor(m) == -2 && BalanceFactor(m.right) == 0)
    ensures Balance(m) == m
  {
    BalanceIsByHeight(m);
    hide Balance;
  }

  lemma {:induction false} ShrinkLeft(t: Tree, u: Tree, slot: nat, k: Key, v: int, e: Effect)
    requires t.Node? && Balanced(t) && Height(t) <= MAX_CHAR && Shrunk(u, Height(t.left), e)
    ensures Shrunk(Balance(Node(u, slot, k, v, t.right)), Height(t), FromLeft(t, e))
  {
    hide Balance;
    var m := Node(u, slot, k, v, t.right);
    BalancedMeansNone(t.right);
    BalancedMeansNone(u);
    if e == Stuck || (BalanceFactor(m) == -2 && BalanceFactor(m.right) == 0) {
      Unmended(m);
    } else {
      Mended(m);
    }
  }

  lemma {:induction false} ShrinkRight(t: Tree, u: Tree, e: Effect)
    requires t.Node? && Balanced(t) && Height(t) <= MAX_CHAR && Shrunk(u, Height(t.right), e)
    ensures Shrunk(Balance(t.(right := u)), Height(t), FromRight(t, e))
  {
    hide Balance;
    var m := t.(right := u);
    BalancedMeansNone(t.left);
    BalancedMeansNone(u);
    if e == Stuck || (BalanceFactor(m) == 2 && BalanceFactor(m.left) == 0) {
      Unmended(m);
    } else {
      Mended(m);
    }
  }

  /** A balanced subtree moves up as it is. */
  lemma MovesUp(t: Tree)
    requires Balanced(t) && Height(t) <= MAX_CHAR
    ensures Shrunk(Balance(t), Height(t), Same)
  {
    BalanceIsByHeight(t);
    BalancedMeansNone(t);
  }

  lemma {:induction false} RemoveMaxShrinks(t: Tree)
    requires t.Node? && Balanced(t) && Height(t) <= MAX_CHAR
    ensures Shrunk(RemoveMax(t), Height(t), RemoveMaxEffect(t))
  {
    if t.right.Node? {
      RemoveMaxShrinks(t.right);
      ShrinkRight(t, RemoveMax(t.right), RemoveMaxEffect(t.right));
    } else {
      MovesUp(t.left);
    }
  }

  lemma {:induction false} RemoveShrinks(t: Tree, k: Key)
    requires Balanced(t) && Height(t) <= MAX_CHAR
    ensures Shrunk(Remove(t, k), Height(t), RemoveEffect(t, k))
  {
    if t.Node? {
      hide Shrunk, Balance;
      var cmp := KeyCmp(k, t.key);
      if cmp < 0 {
        RemoveShrinks(t.left, k);
        ShrinkLeft(t, Remove(t.left, k), t.slot, t.key, t.voff, RemoveEffect(t.left, k));
      } else if cmp > 0 {
        RemoveShrinks(t.right, k);
        ShrinkRight(t, Remove(t.right, k), RemoveEffect(t.right, k));
      } else if t.left.Node? && t.right.Node? {
        RemoveMaxShrinks(t.left);
        ShrinkLeft(t, RemoveMax(t.left), t.slot, MaxNode(t.left).key, MaxNode(t.left).voff, RemoveMaxEffect(t.left));
      } else {
        RemoveRootShrinks(t);
      }
    }
  }

  lemma RemoveRootShrinks(t: Tree)
    requires t.Node? && Balanced(t) && Height(t) <= MAX_CHAR && (t.left.Leaf? || t.right.Leaf?)
    ensures t.left.Leaf? ==> Shrunk(Balance(t.right), Height(t), Lower)
    ensures t.right.Leaf? ==> Shrunk(Balance(t.left), Height(t), Lower)
  {
    MovesUp(t.left);
    MovesUp(t.right);
  }

  /** A removal keeps a balanced tree balanced exactly when it is not stuck, and lowers it by one
      exactly when the effect says so. At worst one node is left at factor 2 or -2. */
  lemma RemoveKeepsBalance(t: Tree, k: Key)
    requires Balanced(t) && Height(t) <= MAX_CHAR
    ensures Balanced(Remove(t, k)) <==> RemoveEffect(t, k) != Stuck
    ensures Height(Remove(t, k)) == Height(t) - if RemoveEffect(t, k) == Lower then 1 else 0
    ensures Unbalanced(Remove(t, k)) <= 1 && FactorsWithin(Remove(t, k), 2)
  {
    RemoveShrinks(t, k);
    BalancedMeansNone(Remove(t, k));
  }

  /** A record with one record on its left and, on its right, one with two below it. */
  ghost predicate Triple(t: Tree) {
    && t.Node? && t.left.Node? && t.right.Node?
    && t.left.left.Leaf? && t.left.right.Leaf? && t.right.left.Leaf? && t.right.right.Leaf?
  }

  lemma OneRecord(t: Tree)
    requires t.Node? && t.left.Leaf? && t.right.Leaf?
    ensures Height(t) == 1 && Balanced(t)
  {
    assert Height(Leaf) == 0 && Balanced(Leaf);
  }

  /** The smallest trees that lose their balance: the record alone on the left goes. */
  lemma RemoveLosesBalance(t: Tree)
    requires t.Node? && t.left.Node? && t.left.left.Leaf? && t.left.right.Leaf? && Triple(t.right)
    requires KeyCmp(t.left.key, t.key) < 0
    ensures Balanced(t) && !Balanced(Remove(t, t.left.key))
  {
    KeyCmpIsRankOrder(t.left.key, t.left.key);
    OneRecord(t.left);
    OneRecord(t.right.left);
    OneRecord(t.right.right);
    var r := t.right;
    assert Height(r) == 2 && BalanceFactor(r) == 0;
    assert Balanced(r);
    assert Height(t) == 3 && BalanceFactor(t) == -1;
    assert RemoveEffect(t.left, t.left.key) == Lower;
    RemoveKeepsBalance(t, t.left.key);
  }

  // ---------- full pages are no sticks ----------

  lemma TwoSided(t: Tree)
    requires t.Node? && t.left.Node? && t.right.Node?
    ensures Height(t) < Size(t)
  {
    HeightAtMostSize(t.left);
    HeightAtMostSize(t.right);
  }

  /** A rotation leaves a record with others on both sides. */
  lemma TurnedIsNoStick(t: Tree)
    requires Balance(t) != t
    ensures Height(Balance(t)) < Size(Balance(t))
  {
    var u := Balance(t);
    assert u.Node?;
    if u.left.Node? && u.right.Node? {
      TwoSided(u);
    } else if u.right.Leaf? {
      // The pivot's outer side is empty only if both other parts store -1.
      TwoSided(u.left);
    } else {
      TwoSided(u.right);
    }
  }

  /** A tree as high as it has nodes has them on one side only. */
  lemma StickSides(t: Tree)
    requires t.Node? && Height(t) == Size(t)
    ensures (t.left.Leaf? && Height(t.right) == Size(t.right)) || (t.right.Leaf? && Height(t.left) == Size(t.left))
  {
    HeightAtMostSize(t.left);
    HeightAtMostSize(t.right);
    if t.left.Node? && t.right.Node? { TwoSided(t); }
  }

  lemma SmallStick(t: Tree)
    requires t.Node? && Size(t) == 2
    ensures Stored(t) == 2 && (StoredFactor(t) == 1 || (StoredFactor(t) == -1 && t.right.Node?))
    ensures StoredFactor(t) == 1 ==> t.left.Node?
  {
    assert Size(t.left) + Size(t.right) == 1;
    SmallTree(t.left);
    SmallTree(t.right);
  }

  lemma SmallTree(t: Tree)
    requires Size(t) <= 1
    ensures Stored(t) == Size(t) && (t.Node? <==> Size(t) == 1)
  {
    if t.Node? { assert t.left.Leaf? && t.right.Leaf?; }
  }

  /** Three nodes in a line are always turned. */
  lemma StickTurns(t: Tree)
    requires t.Node? && Size(t) == 3 && Height(t) == 3
    ensures Balance(t) != t
  {
    StickSides(t);
    if t.left.Leaf? {
      SmallStick(t.right);
      assert StoredFactor(t) == -2;
    } else {
      SmallStick(t.left);
      assert StoredFactor(t) == 2;
    }
    if Balance(t) == t { BalanceAlone(t); }
  }

  lemma BalanceAlone(t: Tree)
    requires t.Node? && Size(t) == 3 && (t.left.Leaf? || t.right.Leaf?) && Balance(t) == t
    ensures t.left.Leaf? ==> StoredFactor(t) != -2 || StoredFactor(t.right) !in {-1, 1}
    ensures t.right.Leaf? ==> StoredFactor(t) != 2 || StoredFactor(t.left) !in {-1, 1}
  {
    if t.left.Leaf? && t.right.Node? { SmallStick(t.right); }
    if t.right.Leaf? && t.left.Node? { SmallStick(t.left); }
  }

  /** A new key never makes a stick of three nodes or more. */
  lemma {:induction false} PutMakesNoStick(t: Tree, k: Key, v: int, free: int)
    requires free >= 0 && Lookup(t, k).None?
    ensures Size(Put(t, k, v, free)) == Size(t) + 1
    ensures Size(t) >= 2 ==> Height(Put(t, k, v, free)) <= Size(t)
  {
    hide Balance;
    HeightAtMostSize(Put(t, k, v, free));
    if t.Node? {
      var cmp := KeyCmp(k, t.key);
      var m;
      if cmp < 0 {
        PutMakesNoStick(t.left, k, v, free);
        m := t.(left := Put(t.left, k, v, free));
      } else {
        PutMakesNoStick(t.right, k, v, free);
        m := t.(right := Put(t.right, k, v, free));
      }
      BalanceKeepsSlots(m);
      if Balance(m) != m {
        TurnedIsNoStick(m);
      } else if Height(m) == Size(m) && Size(t) >= 2 {
        StickSides(m);
        StickTurns(m);
      }
    }
  }

  /** Neither does an operation that changes no key. */
  lemma {:induction false} NothingMakesNoStick(t: Tree, k: Key, v: int, free: int)
    requires free >= -1 && (Lookup(t, k).Some? || free == -1)
    ensures Size(Put(t, k, v, free)) == Size(t)
    ensures Height(t) < Size(t) ==> Height(Put(t, k, v, free)) < Size(t)
  {
    hide Balance;
    if t.Node? {
      var cmp := KeyCmp(k, t.key);
      var m;
      if cmp < 0 {
        NothingMakesNoStick(t.left, k, v, free);
        m := t.(left := Put(t.left, k, v, free));
      } else if cmp == 0 {
        m := t.(voff := v);
      } else {
        NothingMakesNoStick(t.right, k, v, free);
        m := t.(right := Put(t.right, k, v, free));
      }
      BalanceKeepsSlots(m);
      HeightAtMostSize(m);
      if Balance(m) != m {
        TurnedIsNoStick(m);
      } else if Height(m) == Size(m) && Height(t) < Size(t) {
        StickSides(m);
        HeightAtMostSize(t.left);
        HeightAtMostSize(t.right);
      }
    }
  }

  // ---------- height against size ----------

  function FibPair(n: nat): (p: (nat, nat))
    ensures p.0 <= p.1
  {
    if n == 0 then (0, 1) else var (a, b) := FibPair(n - 1); (b, a + b)
  }

  /** The Fibonacci numbers 0, 1, 1, 2, 3, 5, ... */
  function Fib(n: nat): nat {
    FibPair(n).0
  }

  lemma {:induction false} FibMonotone(m: nat, n: nat)
    requires m <= n
    ensures Fib(m) <= Fib(n)
    decreases n
  {
    if m < n {
      FibMonotone(m, n - 1);
    }
  }

  lemma {:induction false} BalancedIsLarge(t: Tree)
    requires Balanced(t)
    ensures Size(t) + 1 >= Fib(Height(t) + 2)
  {
    assert FibPair(2) == (1, 2);
    if t.Node? {
      var h := Height(t);
      BalancedIsLarge(t.left);
      BalancedIsLarge(t.right);
      FibMonotone(h, Height(t.left) + 2);
      FibMonotone(h, Height(t.right) + 2);
      assert Fib(h + 2) == Fib(h + 1) + Fib(h);
    }
  }

  /** Slot numbers are C shorts, so a balanced page is at most 21 records high. */
  lemma {:induction false} BalancedHeightBound(t: Tree)
    requires Balanced(t) && Size(t) <= MAX_SLOTS
    ensures Height(t) <= 21
  {
    BalancedIsLarge(t);
    if Height(t) >= 22 {
      var n :| n == 24;
      FibMonotone(n, Height(t) + 2);
      Fib24(n);
    }
  }

  lemma Fib24(n: nat)
    requires n == 24
    ensures Fib(n) == 46368
  {
    assert FibPair(6) == (8, 13);
    assert FibPair(12) == (144, 233);
    assert FibPair(18) == (2584, 4181);
  }
}
